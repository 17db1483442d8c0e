/** Effective addresses, by the registers that a ModR/M byte, a SIB byte and a displacement name. */
module Addressing {
  import opened Words
  import opened I386
  import opened Machine
  import opened Step
  import opened Disassembler
  import opened Places

  /** A base and a scaled index, either of which may be missing, and `disp` bytes of displacement that begin `at` bytes
      behind the ModR/M byte. */
  datatype Address = Address(base: seq<RegIndex>, index: seq<RegIndex>, factor: nat, at: nat, disp: nat)

  /** [BX+SI], [BX+DI], [BP+SI], [BP+DI], [SI], [DI], [BP] and [BX], with no, one or two bytes of displacement; in the
      place of [BP] without displacement there is a word by itself. */
  function Address16(mod: nat, rm: RegIndex): Address
  {
    if mod == 0 && rm == 6 then Address([], [], 1, 0, 2)
    else
      Address([[EBX], [EBX], [EBP], [EBP], [], [], [EBP], [EBX]][rm],
              [[ESI], [EDI], [ESI], [EDI], [ESI], [EDI], [], []][rm], 1, 0, if mod > 2 then 0 else mod)
  }

  /** Any register, or for number 4 what the SIB byte names: its base, and its index unless that is number 4. In the
      place of EBP without displacement there is a double word. */
  function Address32(mod: nat, rm: RegIndex, sib: u8): Address
  {
    var number := if rm == 4 then RmOf(sib) else rm;
    var alone := mod == 0 && number == EBP;
    Address(if alone then [] else [number], if rm == 4 && RegOf(sib) != 4 then [RegOf(sib)] else [],
            if rm == 4 then [1, 2, 4, 8][ModField(sib)] else 1, if rm == 4 then 1 else 0,
            if alone || mod == 2 then 4 else if mod == 1 then 1 else 0)
  }

  function AddressOf(wide: bool, modrm: u8, text: seq<u8>): Address
  {
    if wide then Address32(ModField(modrm), RmOf(modrm), if text == [] then 0 else text[0])
    else Address16(ModField(modrm), RmOf(modrm))
  }

  /** The bytes behind the ModR/M byte that belong to the address. */
  function Tail(a: Address): nat { a.at + a.disp }

  /** What the named registers hold, modulo `range`. */
  function Named(regs: Regs, names: seq<RegIndex>, range: int): nat
    requires range > 0
  {
    if names == [] then 0 else regs[names[0]] % range
  }

  function Displacement(text: seq<u8>, n: nat): int
    requires n <= |text|
  {
    if n == 1 then Signed8(text[0]) else if n == 2 then Signed16(Number(text[..2])) else Number(text[..n])
  }

  function Range(wide: bool): int { if wide then TWO32 else TWO16 }

  /** Base, index times factor, and displacement, added up in words or in double words. */
  function OffsetOf(regs: Regs, a: Address, text: seq<u8>, wide: bool): u32
    requires Tail(a) <= |text|
  {
    var range := Range(wide);
    (Named(regs, a.base, range) + a.factor * Named(regs, a.index, range) + Displacement(text[a.at..], a.disp)) % range
  }

  /** SS when the base is BP, EBP or ESP, and DS otherwise. */
  predicate OnStack(a: Address) { EBP in a.base || ESP in a.base }

  /** A factor of 4 or 8 is undefined behaviour. */
  predicate Decodes(a: Address) { a.index == [] || a.factor <= 2 }

  // ----- The decoder computes these addresses -----

  lemma FirstNumbers(text: seq<u8>)
    ensures |text| >= 2 ==> Number(text[..2]) == Bytes16(text[0], text[1])
    ensures |text| >= 4 ==> Number(text[..4]) == Bytes32(text[0], text[1], text[2], text[3])
  {
    hide Number, Bytes16, Bytes32;
    var m := text + [0, 0, 0, 0];
    ShortNumbers(m, 0);
    if |text| >= 2 { assert m[0..2] == text[..2]; }
    if |text| >= 4 { assert m[0..4] == text[..4]; }
  }

  /** Reading a word displacement as signed makes no difference to a word. */
  lemma SignedWord(x: int, w: u16)
    ensures (x + Signed16(w)) % TWO16 == (x + w) % TWO16
  {
    if w >= 0x8000 { AddMultiple(x + w, -1, TWO16); }
  }

  /** What the decoder adds up for a 16-bit form: the two registers, and the displacement's bytes as they are. */
  lemma Sum16(s: State, modrm: u8, mod: nat, rm: RegIndex)
    requires mod == ModField(modrm) < 3 && rm == RmOf(modrm)
    ensures var a := Address16(mod, rm);
            var base := Named(s.regs, a.base, TWO16) + Named(s.regs, a.index, TWO16);
            var d := if a.disp == 0 then 0 else if a.disp == 1 then Displacement8(s) else Code16(s);
            DecodeRm16(s, modrm) == (RmMem(Wrap16(base + d), if OnStack(a) then SS else 0), Skip(s, a.disp))
  {
    SkipTwice(s, 0, 0);
    hide RmMem, Wrap16, Code16, Displacement8, Skip;
  }

  /** The 24 memory forms of a 16-bit ModR/M byte. */
  lemma Decodes16(s: State, modrm: u8, text: seq<u8>)
    requires CodeIs(s, text) && ModField(modrm) < 3
    requires Tail(Address16(ModField(modrm), RmOf(modrm))) <= |text|
    ensures var a := Address16(ModField(modrm), RmOf(modrm));
            DecodeRm16(s, modrm) == (Decoded(DMem, OffsetOf(s.regs, a, text, false), Sz8, if OnStack(a) then SS else 0),
                                     Skip(s, Tail(a)))
  {
    var a := Address16(ModField(modrm), RmOf(modrm));
    Sum16(s, modrm, ModField(modrm), RmOf(modrm));
    Displaced16(s, a, text);
    WrapSmall(OffsetOf(s.regs, a, text, false));
    hide DecodeRm16, Address16, CodeIs, Code16, Displacement8, Skip, OffsetOf;
    Shape16(ModField(modrm), RmOf(modrm));
  }

  lemma Shape16(mod: nat, rm: RegIndex)
    ensures var a := Address16(mod, rm); a.factor == 1 && a.at == 0 && a.disp <= 2
  {
  }

  lemma Displaced16(s: State, a: Address, text: seq<u8>)
    requires CodeIs(s, text) && a.factor == 1 && a.at == 0 && a.disp <= 2 && Tail(a) <= |text|
    ensures var base := Named(s.regs, a.base, TWO16) + Named(s.regs, a.index, TWO16);
            var d := if a.disp == 0 then 0 else if a.disp == 1 then Displacement8(s) else Code16(s);
            Wrap16(base + d) == OffsetOf(s.regs, a, text, false)
  {
    FirstBytes(s, text);
    FirstNumbers(text);
    Emptied(text);
    assert text[0..] == text;
    var base := Named(s.regs, a.base, TWO16) + Named(s.regs, a.index, TWO16);
    hide CodeIs, Code8, Code16, Number, Signed8, Bytes16, Named;
    if a.disp == 2 { SignedWord(base, Code16(s)); }
  }

  lemma Emptied(text: seq<u8>)
    ensures Displacement(text, 0) == 0
  {
  }

  /** What the decoder takes for base and index of a 32-bit form, with a double word that stands alone. */
  ghost predicate BaseIs(s: State, r: Result<(int, SegIndex, State)>, a: Address, direct: int)
  {
    if Decodes(a) then
      r == Ok((Named(s.regs, a.base, TWO32) + a.factor * Named(s.regs, a.index, TWO32) + direct,
               if OnStack(a) then SS else 0, Skip(s, a.at + if a.base == [] then 4 else 0)))
    else r == Halted(HostUndefined)
  }

  lemma SibBase(s: State, mod: nat, sib: u8)
    requires Code8(s) == sib && mod < 3
    ensures var a := Address32(mod, 4, sib);
            BaseIs(s, DecodeSib(s, mod), a, if a.base == [] then Code32(Skip(s, 1)) else 0)
  {
    SkipTwice(s, 1, 4);
    hide Skip, Code8, Code32;
    forall r: u32 ensures r % TWO32 == r { WrapSmall(r); }
  }

  lemma PlainBase(s: State, mod: nat, rm: RegIndex, sib: u8)
    requires mod < 3 && rm != 4
    ensures var a := Address32(mod, rm, sib);
            BaseIs(s, RmBase32(s, mod, rm), a, if a.base == [] then Code32(s) else 0)
  {
    SkipTwice(s, 0, 0);
    hide Skip, Code32;
    forall r: u32 ensures r % TWO32 == r { WrapSmall(r); }
  }

  /** A 32-bit form: all ModR/M and SIB bytes, with exactly which of them decode. */
  lemma Decodes32(s: State, modrm: u8, text: seq<u8>)
    requires CodeIs(s, text) && ModField(modrm) < 3 && (RmOf(modrm) == 4 ==> text != [])
    requires Tail(AddressOf(true, modrm, text)) <= |text|
    ensures var a := AddressOf(true, modrm, text);
            DecodeRm32(s, modrm) ==
              if Decodes(a) then
                Ok((Decoded(DMem, OffsetOf(s.regs, a, text, true), Sz8, if OnStack(a) then SS else 0),
                  Skip(s, Tail(a))))
              else Halted(HostUndefined)
  {
    hide AddressOf, CodeIs, RmBase32, OffsetOf, DecodeRm32, BaseIs, Code32;
    FirstBytes(s, text);
    Based(s, modrm, text);
    Shape32(modrm, text);
    Displaced32(s, ModField(modrm), AddressOf(true, modrm, text), text);
    FromBase(s, modrm, AddressOf(true, modrm, text), text);
  }

  lemma Based(s: State, modrm: u8, text: seq<u8>)
    requires ModField(modrm) < 3 && (RmOf(modrm) == 4 ==> text != [] && Code8(s) == text[0])
    ensures var a := AddressOf(true, modrm, text);
            BaseIs(s, RmBase32(s, ModField(modrm), RmOf(modrm)), a, if a.base == [] then Code32(Skip(s, a.at)) else 0)
  {
    hide BaseIs, Code8, Code32, Skip, DecodeSib;
    SkipTwice(s, 0, 0);
    if RmOf(modrm) == 4 {
      SibBase(s, ModField(modrm), text[0]);
    } else {
      PlainBase(s, ModField(modrm), RmOf(modrm), if text == [] then 0 else text[0]);
    }
  }

  lemma FromBase(s: State, modrm: u8, a: Address, text: seq<u8>)
    requires ModField(modrm) < 3 && Tail(a) <= |text|
    requires a.disp == if a.base == [] || ModField(modrm) == 2 then 4 else if ModField(modrm) == 1 then 1 else 0
    requires a.base == [] ==> ModField(modrm) == 0
    requires BaseIs(s, RmBase32(s, ModField(modrm), RmOf(modrm)), a, if a.base == [] then Code32(Skip(s, a.at)) else 0)
    requires var t := Skip(s, a.at);
             var mod := ModField(modrm);
             var d := if mod == 1 then Displacement8(t) else if mod == 2 || a.base == [] then Code32(t) else 0;
             var sum := Named(s.regs, a.base, TWO32) + a.factor * Named(s.regs, a.index, TWO32) + d;
             Wrap32(sum) == OffsetOf(s.regs, a, text, true)
    ensures DecodeRm32(s, modrm) ==
              if Decodes(a) then
                Ok((Decoded(DMem, OffsetOf(s.regs, a, text, true), Sz8, if OnStack(a) then SS else 0),
                  Skip(s, Tail(a))))
              else Halted(HostUndefined)
  {
    hide Code32, Skip, RmBase32, OffsetOf, Displacement8, Named;
    SkipTwice(s, a.at, 0);
    SkipTwice(s, a.at, 4);
    SkipTwice(s, a.at, a.disp);
  }

  /** Where the displacement is, and that it stands alone only without a base. */
  lemma Shape32(modrm: u8, text: seq<u8>)
    requires ModField(modrm) < 3
    ensures var (a, mod) := (AddressOf(true, modrm, text), ModField(modrm));
            && a.at == (if RmOf(modrm) == 4 then 1 else 0) && (a.base == [] ==> mod == 0)
            && a.disp == if a.base == [] || mod == 2 then 4 else if mod == 1 then 1 else 0
  {
  }

  lemma Displaced32(s: State, mod: nat, a: Address, text: seq<u8>)
    requires CodeIs(s, text) && Tail(a) <= |text| && mod < 3 && (a.base == [] ==> mod == 0)
    requires a.disp == if a.base == [] || mod == 2 then 4 else if mod == 1 then 1 else 0
    ensures var t := Skip(s, a.at);
            var d := if mod == 1 then Displacement8(t) else if mod == 2 || a.base == [] then Code32(t) else 0;
            var sum := Named(s.regs, a.base, TWO32) + a.factor * Named(s.regs, a.index, TWO32) + d;
            Wrap32(sum) == OffsetOf(s.regs, a, text, true)
  {
    CodeShifts(s, text, a.at);
    FirstBytes(Skip(s, a.at), text[a.at..]);
    FirstNumbers(text[a.at..]);
    Emptied(text[a.at..]);
    hide CodeIs, Code8, Code32, Number, Signed8, Bytes32, Named, Skip;
  }
}
