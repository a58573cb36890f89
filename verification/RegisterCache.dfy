/** The write-through cache of the inferior's registers, with the registers it makes up: $pc, and a
    frame pointer worked out from the stack pointer and the code. */
module RegisterCache {
  import opened Wrappers

  type Word = w: int | 0 <= w < 0x1_0000_0000

  const R0: nat := 0
  const FP: nat := 30
  const SP: nat := 31
  const SYNTH_PC: nat := 32
  const PSR: nat := 34
  const EPSR: nat := 35
  const SXIP: nat := 37
  const SNIP: nat := 38
  const SFIP: nat := 39
  const FPSR: nat := 63
  const FPCR: nat := 64
  const SYNTH_FP: nat := 70
  const NUM_REGS: nat := 71

  /** The registers ptrace gives of a user process.  reg_access also lists three more, but those are
      never asked for as they are: $pc, $psr and $synthfp. */
  predicate UserAccess(r: nat) {
    r <= SP || r == EPSR || SXIP <= r <= SFIP || r == FPSR || r == FPCR
  }

  /** The inferior's own registers. */
  type Hard = h: seq<Word> | |h| == NUM_REGS witness seq(NUM_REGS, i => 0)

  /** The IP_VALID bit. */
  predicate IpValid(w: Word) { w % 4 >= 2 }

  function Plus4(w: int): Word { (w + 4) % 0x1_0000_0000 }

  /** The next instruction to execute, chosen as the CPU does. */
  function Pc(h: Hard): Word {
    if IpValid(h[SNIP]) then Align(h[SNIP])
    else if IpValid(h[SFIP]) then Align(h[SFIP])
    else Plus4(Align(h[SFIP]))
  }

  /** What the code and the symbols say: whether the function at an address keeps a frame pointer in
      r30, and if not how to work one out from the stack pointer there. */
  datatype Text = Text(keepsFp: Word -> bool, previousFp: (Word, Word) -> Word)

  function SynthFp(text: Text, h: Hard): Word {
    if text.keepsFp(Pc(h)) then h[FP] else text.previousFp(h[SP], Pc(h))
  }

  /** What read_register is to return, None for an error report. */
  function Register(text: Text, h: Hard, r: nat): Option<Word> {
    if r >= NUM_REGS then None
    else if r == R0 then Some(0)
    else if r == SYNTH_PC then Some(Pc(h))
    else if r == PSR then Some(h[EPSR])
    else if r == SYNTH_FP then Some(SynthFp(text, h))
    else if UserAccess(r) then Some(h[r])
    else None
  }

  /** The inferior's registers after write_register, None for an error report. */
  function Written(h: Hard, r: nat, value: Word): Option<Hard> {
    if r >= NUM_REGS then None
    else if r == R0 then Some(h)
    else if r == SYNTH_PC then
      if Align(value) == Pc(h) then Some(h)
      else Some(h[SNIP := Align(value) + 2][SFIP := Plus4(Align(value) + 2)])
    else if r == PSR then Some(h[EPSR := value])
    else if r == SYNTH_FP then None
    else if UserAccess(r) then Some(h[r := value])
    else None
  }

  // ----- what the specification promises -----

  /** Writing $pc and reading it gives the address without its two status bits. */
  lemma WrittenPcReadsBack(text: Text, h: Hard, value: Word)
    ensures Written(h, SYNTH_PC, value).Some?
    ensures Register(text, Written(h, SYNTH_PC, value).value, SYNTH_PC) == Some(Align(value))
  {
    var x := Align(value);
    assert (x + 2) % 4 == 2 && Align(x + 2) == x;
  }

  /** Writing any other register that can be written and reading it gives the value back, except that
      r0 stays 0. */
  lemma WrittenReadsBack(text: Text, h: Hard, r: nat, value: Word)
    requires r != SYNTH_PC && Written(h, r, value).Some?
    ensures Register(text, Written(h, r, value).value, r) == Some(if r == R0 then 0 else value)
  {
  }

  /** What each register reads as, by its number: the real ones themselves, r0 zero, $psr as $epsr, and no
      others but the two made up. */
  lemma RegistersRead(text: Text, h: Hard, r: nat)
    ensures Register(text, h, 0) == Some(0) && Register(text, h, 34) == Some(h[35])
    ensures 1 <= r <= 31 || r == 35 || 37 <= r <= 39 || r == 63 || r == 64 ==> r < 71 && Register(text, h, r) == Some(h[r])
    ensures r in {33, 36} || 40 <= r <= 62 || 65 <= r <= 69 || 71 <= r ==> Register(text, h, r) == None
  {
  }

  /** $pc is the address in snip if its valid bit is set, else the one in sfip, or if that is not valid either the
      one after. */
  lemma PcRead(text: Text, h: Hard, snip: Word, sfip: Word, a: int, b: int)
    requires snip % 4 == 0 == sfip % 4 && 0 <= a < 4 && 0 <= b < 4 && h[38] == snip + a && h[39] == sfip + b
    ensures Register(text, h, 32) == Some(if a >= 2 then snip else if b >= 2 then sfip else (sfip + 4) % 0x1_0000_0000)
  {
  }

  /** $synthfp is r30 where the code keeps a frame pointer, and worked out from r31 elsewhere. */
  lemma FramePointerRead(text: Text, h: Hard)
    ensures Register(text, h, 32).Some?
    ensures var pc := Register(text, h, 32).value;
      Register(text, h, 70) == if text.keepsFp(pc) then Register(text, h, 30) else Some(text.previousFp(h[31], pc))
  {
  }

  /** Writing $pc sets the two pipeline registers, the next instruction's four further on, both valid, and
      nothing else; at the address where execution stands it does nothing. */
  lemma PcWritten(text: Text, h: Hard, value: Word)
    ensures var x := value - value % 4;
      var r := Written(h, 32, value).value;
      if Register(text, h, 32) == Some(x) then r == h
      else r == h[38 := x + 2][39 := (x + 6) % 0x1_0000_0000]
  {
  }

  /** A write shows in no other register but those that share its contents or are made up from it. */
  predicate Shows(r: nat, q: nat) {
    || r == q
    || (r in {PSR, EPSR} && q in {PSR, EPSR})
    || (r == SYNTH_PC && q in {SNIP, SFIP, SYNTH_FP})
    || (r in {SNIP, SFIP} && q in {SYNTH_PC, SYNTH_FP})
    || (r in {SP, FP} && q == SYNTH_FP)
  }

  lemma WrittenElsewhere(text: Text, h: Hard, r: nat, value: Word, q: nat)
    requires Written(h, r, value).Some? && !Shows(r, q)
    ensures Register(text, Written(h, r, value).value, q) == Register(text, h, q)
  {
  }

  // ----- the cache -----

  class Cache {
    const text: Text
    var hard: Hard                // the inferior's registers, reached by ptrace
    var regContents: array<Word>
    var regKnown: array<bool>

    /** Everything known is right: a real register as the inferior has it, and the made-up frame
        pointer as it would be worked out now. */
    ghost predicate Valid()
      reads this, regContents, regKnown
    {
      && regContents.Length == regKnown.Length == NUM_REGS
      && (forall r :: 0 <= r < NUM_REGS && r != SYNTH_FP && regKnown[r] ==> regContents[r] == hard[r])
      && (regKnown[SYNTH_FP] ==> regContents[SYNTH_FP] == SynthFp(text, hard))
    }

    constructor (text: Text, hard: Hard)
      ensures Valid() && this.text == text && this.hard == hard && fresh(regContents) && fresh(regKnown)
    {
      this.text, this.hard := text, hard;
      regContents := new Word[NUM_REGS](_ => 0);
      regKnown := new bool[NUM_REGS](_ => false);
    }

    method ForgetRegisters()
      requires Valid()
      modifies regKnown
      ensures Valid() && forall r :: 0 <= r < NUM_REGS ==> !regKnown[r]
    {
      var r := 0;
      while r < NUM_REGS
        invariant 0 <= r <= NUM_REGS && Valid()
        invariant forall q :: 0 <= q < r ==> !regKnown[q]
      {
        regKnown[r] := false;
        r := r + 1;
      }
    }

    /** The inferior runs and its registers change; resume forgets what was known of them. */
    method Resume(ran: Hard)
      requires Valid()
      modifies `hard, regKnown
      ensures Valid() && hard == ran
    {
      ForgetRegisters();
      hard := ran;
    }

    method ReadHardRegister(r: nat) returns (value: Option<Word>)
      requires Valid() && r < NUM_REGS
      modifies regContents, regKnown
      ensures Valid() && value == if UserAccess(r) then Some(hard[r]) else None
    {
      if !UserAccess(r) {
        return None;
      }
      if !regKnown[r] {
        regContents[r] := hard[r];
        regKnown[r] := true;
      }
      value := Some(regContents[r]);
    }

    /** Store through the cache; the made-up frame pointer must not be known if `r` bears on it. */
    method WriteHardRegister(r: nat, value: Word) returns (ok: bool)
      requires Valid() && r < NUM_REGS && (r in {SP, FP, SNIP, SFIP} ==> !regKnown[SYNTH_FP])
      modifies `hard, regContents, regKnown
      ensures Valid() && ok == UserAccess(r)
      ensures hard == if ok then old(hard)[r := value] else old(hard)
      ensures regKnown[SYNTH_FP] == old(regKnown[SYNTH_FP])
    {
      if !UserAccess(r) {
        return false;
      }
      regContents[r] := value;
      regKnown[r] := true;
      hard := hard[r := value];
      ok := true;
    }

    method ReadPc() returns (pc: Word)
      requires Valid()
      modifies regContents, regKnown
      ensures Valid() && pc == Pc(hard) && regKnown[SYNTH_FP] == old(regKnown[SYNTH_FP])
    {
      var snip := ReadReal(SNIP);
      if IpValid(snip) {
        return Align(snip);
      }
      var sfip := ReadReal(SFIP);
      pc := if IpValid(sfip) then Align(sfip) else Plus4(Align(sfip));
    }

    method ReadReal(r: nat) returns (value: Word)
      requires Valid() && UserAccess(r)
      modifies regContents, regKnown
      ensures Valid() && value == hard[r] && regKnown[SYNTH_FP] == old(regKnown[SYNTH_FP])
    {
      if !regKnown[r] {
        regContents[r] := hard[r];
        regKnown[r] := true;
      }
      value := regContents[r];
    }

    method ReadRegister(r: nat) returns (value: Option<Word>)
      requires Valid()
      modifies regContents, regKnown
      ensures Valid() && value == Register(text, hard, r)
    {
      if r >= NUM_REGS {
        return None;
      }
      if r == R0 {
        return Some(0);
      }
      if r == SYNTH_PC {
        var pc := ReadPc();
        return Some(pc);
      }
      if r == PSR || r == EPSR {
        value := ReadHardRegister(EPSR);
        return;
      }
      if r == SYNTH_FP {
        var fp := ReadSynthFp();
        return Some(fp);
      }
      value := ReadHardRegister(r);
    }

    method ReadSynthFp() returns (fp: Word)
      requires Valid()
      modifies regContents, regKnown
      ensures Valid() && fp == SynthFp(text, hard)
    {
      if regKnown[SYNTH_FP] {
        return regContents[SYNTH_FP];
      }
      var pc := ReadPc();
      if text.keepsFp(pc) {
        fp := ReadReal(FP);
      } else {
        var sp := ReadReal(SP);
        fp := text.previousFp(sp, pc);
      }
      regContents[SYNTH_FP] := fp;
      regKnown[SYNTH_FP] := true;
    }

    method WriteRegister(r: nat, value: Word) returns (ok: bool)
      requires Valid()
      modifies `hard, regContents, regKnown
      ensures Valid() && ok == Written(old(hard), r, value).Some?
      ensures hard == if ok then Written(old(hard), r, value).value else old(hard)
    {
      if r >= NUM_REGS {
        return false;
      }
      if r == R0 {
        return true;
      }
      if r == SYNTH_PC {
        WritePc(Align(value));
        return true;
      }
      if r == PSR || r == EPSR {
        ok := WriteHardRegister(EPSR, value);
        return;
      }
      if r == SYNTH_FP {
        return false;
      }
      if r in {SP, FP, SNIP, SFIP} {
        regKnown[SYNTH_FP] := false;
      }
      ok := WriteHardRegister(r, value);
    }

    /** The frame pointer is forgotten last: until then Valid() need not hold of it. */
    method WritePc(address: Word)
      requires Valid() && address % 4 == 0
      modifies `hard, regContents, regKnown
      ensures Valid()
      ensures hard == if address == Pc(old(hard)) then old(hard) else old(hard)[SNIP := address + 2][SFIP := Plus4(address + 2)]
    {
      var pc := ReadPc();
      if address != pc {
        StoreReal(SNIP, address + 2);
        StoreReal(SFIP, Plus4(address + 2));
        regKnown[SYNTH_FP] := false;
      }
    }

    ghost predicate RealKnown()
      reads this, regContents, regKnown
    {
      && regContents.Length == regKnown.Length == NUM_REGS
      && forall r :: 0 <= r < NUM_REGS && r != SYNTH_FP && regKnown[r] ==> regContents[r] == hard[r]
    }

    method StoreReal(r: nat, value: Word)
      requires RealKnown() && UserAccess(r)
      modifies `hard, regContents, regKnown
      ensures RealKnown() && hard == old(hard)[r := value]
    {
      regContents[r] := value;
      regKnown[r] := true;
      hard := hard[r := value];
    }
  }
}
