/** The two forms of the Jenkins hash, on bytes and on 32-bit words. */
module Jhash {

  type Word = bv32

  const JHASH_INITVAL: Word := 0xdead_beef

  /** The internal state. */
  datatype State = State(a: Word, b: Word, c: Word)

  // ---------------------------------------------------------------- mixing is reversible

  function Add(x: Word, y: Word): Word { x + y }
  function Sub(x: Word, y: Word): Word { x - y }
  function Xor(x: Word, y: Word): Word { x ^ y }
  function Rol(x: Word, r: nat): Word requires r < 32 { x.RotateLeft(r) }

  // The verifier is good at either word arithmetic or names for it; these lemmas go from one to the other.

  lemma AddIs(x: Word, y: Word) ensures Add(x, y) == x + y {}
  lemma SubIs(x: Word, y: Word) ensures Sub(x, y) == x - y {}
  lemma SubOf(x: Word, y: Word) ensures Sub(x + y, y) == x {}
  lemma AddOf(x: Word, y: Word) ensures Add(x - y, y) == x {}

  lemma AddSub(x: Word, y: Word)
    ensures Sub(Add(x, y), y) == x && Add(Sub(x, y), y) == x
  {
    hide *;
    AddIs(x, y);
    SubOf(x, y);
    SubIs(x, y);
    AddOf(x, y);
  }

  lemma XorUndone(x: Word, y: Word)
    ensures Xor(Xor(x, y), y) == x
  {
  }

  /** One line of the mix: x -= z; x ^= rol32(z, r); z += y. */
  function Line(x: Word, y: Word, z: Word, r: nat): (Word, Word)
    requires r < 32
  {
    (Xor(Sub(x, z), Rol(z, r)), Add(z, y))
  }

  function Unline(x: Word, y: Word, z: Word, r: nat): (Word, Word)
    requires r < 32
  {
    (Add(Xor(x, Rol(Sub(z, y), r)), Sub(z, y)), Sub(z, y))
  }

  lemma LineUndone(x: Word, y: Word, z: Word, r: nat)
    requires r < 32
    ensures var p := Line(x, y, z, r); Unline(p.0, y, p.1, r) == (x, z)
    ensures var p := Unline(x, y, z, r); Line(p.0, y, p.1, r) == (x, z)
  {
    hide Add, Sub, Xor, Rol;
    AddSub(z, y);
    XorUndone(Sub(x, z), Rol(z, r));
    AddSub(x, z);
    XorUndone(x, Rol(Sub(z, y), r));
    AddSub(Xor(x, Rol(Sub(z, y), r)), Sub(z, y));
  }

  function LineA(s: State, r: nat): State requires r < 32 { var p := Line(s.a, s.b, s.c, r); State(p.0, s.b, p.1) }
  function LineB(s: State, r: nat): State requires r < 32 { var p := Line(s.b, s.c, s.a, r); State(p.1, p.0, s.c) }
  function LineC(s: State, r: nat): State requires r < 32 { var p := Line(s.c, s.a, s.b, r); State(s.a, p.1, p.0) }
  function UnlineA(s: State, r: nat): State requires r < 32 { var p := Unline(s.a, s.b, s.c, r); State(p.0, s.b, p.1) }
  function UnlineB(s: State, r: nat): State requires r < 32 { var p := Unline(s.b, s.c, s.a, r); State(p.1, p.0, s.c) }
  function UnlineC(s: State, r: nat): State requires r < 32 { var p := Unline(s.c, s.a, s.b, r); State(s.a, p.1, p.0) }

  function Mixed(s: State): State {
    LineC(LineB(LineA(LineC(LineB(LineA(s, 4), 6), 8), 16), 19), 4)
  }

  function Unmixed(s: State): State {
    UnlineA(UnlineB(UnlineC(UnlineA(UnlineB(UnlineC(s, 4), 19), 16), 8), 6), 4)
  }

  lemma LinesUndone(s: State, r: nat)
    requires r < 32
    ensures UnlineA(LineA(s, r), r) == s == LineA(UnlineA(s, r), r)
    ensures UnlineB(LineB(s, r), r) == s == LineB(UnlineB(s, r), r)
    ensures UnlineC(LineC(s, r), r) == s == LineC(UnlineC(s, r), r)
  {
    LineUndone(s.a, s.b, s.c, r);
    LineUndone(s.b, s.c, s.a, r);
    LineUndone(s.c, s.a, s.b, r);
  }

  /** Mixing is a bijection of the state. */
  lemma MixBijective(s: State)
    ensures Unmixed(Mixed(s)) == s && Mixed(Unmixed(s)) == s
  {
    hide Add, Sub, Xor, Rol, Line, Unline, LineA, LineB, LineC, UnlineA, UnlineB, UnlineC;
    var s1 := LineA(s, 4);
    var s2 := LineB(s1, 6);
    var s3 := LineC(s2, 8);
    var s4 := LineA(s3, 16);
    var s5 := LineB(s4, 19);
    LinesUndone(s, 4);
    LinesUndone(s1, 6);
    LinesUndone(s2, 8);
    LinesUndone(s3, 16);
    LinesUndone(s4, 19);
    LinesUndone(s5, 4);
    var t1 := UnlineC(s, 4);
    var t2 := UnlineB(t1, 19);
    var t3 := UnlineA(t2, 16);
    var t4 := UnlineC(t3, 8);
    var t5 := UnlineB(t4, 6);
    LinesUndone(t1, 19);
    LinesUndone(t2, 16);
    LinesUndone(t3, 8);
    LinesUndone(t4, 6);
    LinesUndone(t5, 4);
  }

  /** One line of the final round: x ^= y; x -= rol32(y, r). */
  function Step(x: Word, y: Word, r: nat): Word requires r < 32 { Sub(Xor(x, y), Rol(y, r)) }
  function Unstep(x: Word, y: Word, r: nat): Word requires r < 32 { Xor(Add(x, Rol(y, r)), y) }

  lemma StepUndone(x: Word, y: Word, r: nat)
    requires r < 32
    ensures Unstep(Step(x, y, r), y, r) == x && Step(Unstep(x, y, r), y, r) == x
  {
    hide Add, Sub, Xor, Rol;
    AddSub(Xor(x, y), Rol(y, r));
    XorUndone(x, y);
    XorUndone(Add(x, Rol(y, r)), y);
    AddSub(x, Rol(y, r));
  }

  function StepC(s: State, r: nat): State requires r < 32 { s.(c := Step(s.c, s.b, r)) }
  function StepA(s: State, r: nat): State requires r < 32 { s.(a := Step(s.a, s.c, r)) }
  function StepB(s: State, r: nat): State requires r < 32 { s.(b := Step(s.b, s.a, r)) }
  function UnstepC(s: State, r: nat): State requires r < 32 { s.(c := Unstep(s.c, s.b, r)) }
  function UnstepA(s: State, r: nat): State requires r < 32 { s.(a := Unstep(s.a, s.c, r)) }
  function UnstepB(s: State, r: nat): State requires r < 32 { s.(b := Unstep(s.b, s.a, r)) }

  function Finished(s: State): State {
    StepC(StepB(StepA(StepC(StepB(StepA(StepC(s, 14), 11), 25), 16), 4), 14), 24)
  }

  function Unfinished(s: State): State {
    UnstepC(UnstepA(UnstepB(UnstepC(UnstepA(UnstepB(UnstepC(s, 24), 14), 4), 16), 25), 11), 14)
  }

  lemma StepsUndone(s: State, r: nat)
    requires r < 32
    ensures UnstepA(StepA(s, r), r) == s == StepA(UnstepA(s, r), r)
    ensures UnstepB(StepB(s, r), r) == s == StepB(UnstepB(s, r), r)
    ensures UnstepC(StepC(s, r), r) == s == StepC(UnstepC(s, r), r)
  {
    StepUndone(s.a, s.c, r);
    StepUndone(s.b, s.a, r);
    StepUndone(s.c, s.b, r);
  }

  /** The final round is a bijection of the state. */
  lemma FinalBijective(s: State)
    ensures Unfinished(Finished(s)) == s && Finished(Unfinished(s)) == s
  {
    hide Add, Sub, Xor, Rol, Step, Unstep, StepA, StepB, StepC, UnstepA, UnstepB, UnstepC;
    var s1 := StepC(s, 14);
    var s2 := StepA(s1, 11);
    var s3 := StepB(s2, 25);
    var s4 := StepC(s3, 16);
    var s5 := StepA(s4, 4);
    var s6 := StepB(s5, 14);
    StepsUndone(s, 14);
    StepsUndone(s1, 11);
    StepsUndone(s2, 25);
    StepsUndone(s3, 16);
    StepsUndone(s4, 4);
    StepsUndone(s5, 14);
    StepsUndone(s6, 24);
    StepsUndone(s, 24);
    var t1 := UnstepC(s, 24);
    var t2 := UnstepB(t1, 14);
    var t3 := UnstepA(t2, 4);
    var t4 := UnstepC(t3, 16);
    var t5 := UnstepB(t4, 25);
    var t6 := UnstepA(t5, 11);
    StepsUndone(t1, 14);
    StepsUndone(t2, 4);
    StepsUndone(t3, 16);
    StepsUndone(t4, 25);
    StepsUndone(t5, 11);
    StepsUndone(t6, 14);
  }

  /** The mix as the macro does it, in place. */
  method Mix(a0: Word, b0: Word, c0: Word) returns (a: Word, b: Word, c: Word)
    ensures State(a, b, c) == Mixed(State(a0, b0, c0))
  {
    hide Add, Sub, Xor, Rol;
    a, b, c := a0, b0, c0;
    a := Sub(a, c); a := Xor(a, Rol(c, 4)); c := Add(c, b);
    b := Sub(b, a); b := Xor(b, Rol(a, 6)); a := Add(a, c);
    c := Sub(c, b); c := Xor(c, Rol(b, 8)); b := Add(b, a);
    a := Sub(a, c); a := Xor(a, Rol(c, 16)); c := Add(c, b);
    b := Sub(b, a); b := Xor(b, Rol(a, 19)); a := Add(a, c);
    c := Sub(c, b); c := Xor(c, Rol(b, 4)); b := Add(b, a);
  }

  /** The final round as the macro does it, in place. */
  method Final(a0: Word, b0: Word, c0: Word) returns (a: Word, b: Word, c: Word)
    ensures State(a, b, c) == Finished(State(a0, b0, c0))
  {
    hide Add, Sub, Xor, Rol;
    a, b, c := a0, b0, c0;
    c := Xor(c, b); c := Sub(c, Rol(b, 14));
    a := Xor(a, c); a := Sub(a, Rol(c, 11));
    b := Xor(b, a); b := Sub(b, Rol(a, 25));
    c := Xor(c, b); c := Sub(c, Rol(b, 16));
    a := Xor(a, c); a := Sub(a, Rol(c, 4));
    b := Xor(b, a); b := Sub(b, Rol(a, 14));
    c := Xor(c, b); c := Sub(c, Rol(b, 24));
  }

  // ---------------------------------------------------------------- hashing words

  /** A length as a 32-bit word: counting wraps around. */
  function Count(n: nat): Word {
    if n == 0 then 0 else Add(Count(n - 1), 1)
  }

  function Start(length: Word, initval: Word): State {
    var x := Add(Add(JHASH_INITVAL, length), initval);
    State(x, x, x)
  }

  /** The state with up to three words added. */
  function Added(s: State, k: seq<Word>): State {
    State(if |k| > 0 then Add(s.a, k[0]) else s.a,
          if |k| > 1 then Add(s.b, k[1]) else s.b,
          if |k| > 2 then Add(s.c, k[2]) else s.c)
  }

  function Subtracted(s: State, k: seq<Word>): State {
    State(if |k| > 0 then Sub(s.a, k[0]) else s.a,
          if |k| > 1 then Sub(s.b, k[1]) else s.b,
          if |k| > 2 then Sub(s.c, k[2]) else s.c)
  }

  /** The state after taking in a key. */
  function Absorbed(k: seq<Word>, s: State): State {
    if |k| > 3 then Absorbed(k[3..], Mixed(Added(s, k[..3])))
    else if k == [] then s
    else Finished(Added(s, k))
  }

  /** The state before. */
  function Released(k: seq<Word>, s: State): State {
    if |k| > 3 then Subtracted(Unmixed(Released(k[3..], s)), k[..3])
    else if k == [] then s
    else Subtracted(Unfinished(s), k)
  }

  lemma AddedUndone(s: State, k: seq<Word>)
    ensures Subtracted(Added(s, k), k) == s == Added(Subtracted(s, k), k)
  {
    hide Add, Sub;
    if |k| > 0 { AddSub(s.a, k[0]); }
    if |k| > 1 { AddSub(s.b, k[1]); }
    if |k| > 2 { AddSub(s.c, k[2]); }
  }

  /** Taking in a fixed key, of any length, is a bijection of the state: no two states are confused by it. */
  lemma {:induction false} AbsorbBijective(k: seq<Word>, s: State)
    ensures Released(k, Absorbed(k, s)) == s && Absorbed(k, Released(k, s)) == s
    decreases |k|
  {
    hide Add, Sub, Xor, Rol, Mixed, Unmixed, Finished, Unfinished, Added, Subtracted;
    if |k| > 3 {
      var t := Mixed(Added(s, k[..3]));
      AbsorbBijective(k[3..], t);
      MixBijective(Added(s, k[..3]));
      AddedUndone(s, k[..3]);
      var u := Released(k[3..], s);
      AbsorbBijective(k[3..], s);
      MixBijective(u);
      AddedUndone(Unmixed(u), k[..3]);
    } else if k != [] {
      FinalBijective(Added(s, k));
      FinalBijective(s);
      AddedUndone(s, k);
      AddedUndone(Unfinished(s), k);
    }
  }

  function Hash2(k: seq<Word>, initval: Word): Word {
    Absorbed(k, Start(Count(|k|) << 2, initval)).c
  }

  method Jhash2(k: seq<Word>, initval: Word) returns (h: Word)
    ensures h == Hash2(k, initval)
  {
    hide Add, Mixed, Finished;
    var x := Add(Add(JHASH_INITVAL, Count(|k|) << 2), initval);
    var a, b, c := x, x, x;
    var at, length := 0, |k|;
    while length > 3
      invariant 0 <= at == |k| - length <= |k|
      invariant Absorbed(k[at..], State(a, b, c)) == Absorbed(k, State(x, x, x))
    {
      assert k[at..][3..] == k[at + 3..] && k[at..][..3] == k[at..at + 3];
      a, b, c := Add(a, k[at]), Add(b, k[at + 1]), Add(c, k[at + 2]);
      a, b, c := Mix(a, b, c);
      length := length - 3;
      at := at + 3;
    }
    if length >= 3 { c := Add(c, k[at + 2]); }
    if length >= 2 { b := Add(b, k[at + 1]); }
    if length >= 1 {
      a := Add(a, k[at]);
      a, b, c := Final(a, b, c);
    }
    return c;
  }

  // ---------------------------------------------------------------- hashing bytes

  type Byte = bv8

  /** Four bytes in memory read as a word, little-endian. */
  function Load(b0: Byte, b1: Byte, b2: Byte, b3: Byte): Word {
    (b0 as Word) | ((b1 as Word) << 8) | ((b2 as Word) << 16) | ((b3 as Word) << 24)
  }

  function LoadAt(k: seq<Byte>, i: nat): Word
    requires i + 4 <= |k|
  {
    Load(k[i], k[i + 1], k[i + 2], k[i + 3])
  }

  /** The bytes of a word as they lie in memory. */
  function WordBytes(w: Word): (b: seq<Byte>)
    ensures |b| == 4
  {
    [(w & 0xFF) as Byte, ((w >> 8) & 0xFF) as Byte, ((w >> 16) & 0xFF) as Byte, ((w >> 24) & 0xFF) as Byte]
  }

  function Bytes(k: seq<Word>): (b: seq<Byte>)
    ensures |b| == 4 * |k|
  {
    if k == [] then [] else WordBytes(k[0]) + Bytes(k[1..])
  }

  function Shifted(b: Byte, shift: nat): Word
    requires shift < 32
  {
    (b as Word) << shift
  }

  function AddByte(x: Word, b: Byte, shift: nat): Word
    requires shift < 32
  {
    Add(x, Shifted(b, shift))
  }

  /** x with the bytes from position i to the end of the key, or to position i + 3, added one by one. */
  function Tail(x: Word, k: seq<Byte>, i: nat): Word {
    var x3 := if |k| > i + 3 then AddByte(x, k[i + 3], 24) else x;
    var x2 := if |k| > i + 2 then AddByte(x3, k[i + 2], 16) else x3;
    var x1 := if |k| > i + 1 then AddByte(x2, k[i + 1], 8) else x2;
    if |k| > i then AddByte(x1, k[i], 0) else x1
  }

  function AbsorbedBytes(k: seq<Byte>, s: State): State {
    if |k| > 12 then
      AbsorbedBytes(k[12..], Mixed(State(Add(s.a, LoadAt(k, 0)), Add(s.b, LoadAt(k, 4)), Add(s.c, LoadAt(k, 8)))))
    else if k == [] then s
    else Finished(State(Tail(s.a, k, 0), Tail(s.b, k, 4), Tail(s.c, k, 8)))
  }

  function Hash(k: seq<Byte>, initval: Word): Word {
    AbsorbedBytes(k, Start(Count(|k|), initval)).c
  }

  method Jhash(k: seq<Byte>, initval: Word) returns (h: Word)
    ensures h == Hash(k, initval)
  {
    hide Add, Mixed, Finished, AddByte, Load;
    var x := Add(Add(JHASH_INITVAL, Count(|k|)), initval);
    var a, b, c := x, x, x;
    var at, length := 0, |k|;
    assert k[0..] == k;
    while length > 12
      invariant 0 <= at == |k| - length <= |k|
      invariant AbsorbedBytes(k[at..], State(a, b, c)) == AbsorbedBytes(k, State(x, x, x))
    {
      assert k[at..][12..] == k[at + 12..];
      a, b, c := Add(a, LoadAt(k, at)), Add(b, LoadAt(k, at + 4)), Add(c, LoadAt(k, at + 8));
      a, b, c := Mix(a, b, c);
      length := length - 12;
      at := at + 12;
    }
    if length >= 12 { c := AddByte(c, k[at + 11], 24); }
    if length >= 11 { c := AddByte(c, k[at + 10], 16); }
    if length >= 10 { c := AddByte(c, k[at + 9], 8); }
    if length >= 9 { c := AddByte(c, k[at + 8], 0); }
    if length >= 8 { b := AddByte(b, k[at + 7], 24); }
    if length >= 7 { b := AddByte(b, k[at + 6], 16); }
    if length >= 6 { b := AddByte(b, k[at + 5], 8); }
    if length >= 5 { b := AddByte(b, k[at + 4], 0); }
    if length >= 4 { a := AddByte(a, k[at + 3], 24); }
    if length >= 3 { a := AddByte(a, k[at + 2], 16); }
    if length >= 2 { a := AddByte(a, k[at + 1], 8); }
    if length >= 1 {
      a := AddByte(a, k[at], 0);
      a, b, c := Final(a, b, c);
    }
    return c;
  }

  // ---------------------------------------------------------------- the two forms agree

  lemma LoadStored(w: Word)
    ensures Load((w & 0xFF) as Byte, ((w >> 8) & 0xFF) as Byte, ((w >> 16) & 0xFF) as Byte,
                 ((w >> 24) & 0xFF) as Byte) == w
  {
  }

  lemma RawSum(b0: Byte, b1: Byte, b2: Byte, b3: Byte)
    ensures ((((b3 as Word) << 24) + ((b2 as Word) << 16)) + ((b1 as Word) << 8)) +
              ((b0 as Word) << 0) == Load(b0, b1, b2, b3)
  {
  }

  lemma AddLeft(x: Word, y: Word, z: Word) ensures Add(x + y, z) == x + (y + z) {}
  lemma AddRight(x: Word, y: Word, z: Word) ensures Add(x, y + z) == x + (y + z) {}

  lemma AddAssoc(x: Word, y: Word, z: Word)
    ensures Add(Add(x, y), z) == Add(x, Add(y, z))
  {
    hide *;
    AddIs(x, y);
    AddIs(y, z);
    AddLeft(x, y, z);
    AddRight(x, y, z);
  }

  lemma ShiftedIs(b: Byte)
    ensures Shifted(b, 0) == (b as Word) << 0
    ensures Shifted(b, 8) == (b as Word) << 8
    ensures Shifted(b, 16) == (b as Word) << 16
    ensures Shifted(b, 24) == (b as Word) << 24
  {
  }

  lemma Partial2(b2: Byte, b3: Byte)
    ensures Add((b3 as Word) << 24, (b2 as Word) << 16) == ((b3 as Word) << 24) + ((b2 as Word) << 16)
  {
  }

  lemma Partial3(b1: Byte, b2: Byte, b3: Byte)
    ensures Add(((b3 as Word) << 24) + ((b2 as Word) << 16), (b1 as Word) << 8)
         == (((b3 as Word) << 24) + ((b2 as Word) << 16)) + ((b1 as Word) << 8)
  {
  }

  lemma Partial4(b0: Byte, b1: Byte, b2: Byte, b3: Byte)
    ensures Add((((b3 as Word) << 24) + ((b2 as Word) << 16)) + ((b1 as Word) << 8), (b0 as Word) << 0)
         == ((((b3 as Word) << 24) + ((b2 as Word) << 16)) + ((b1 as Word) << 8)) + ((b0 as Word) << 0)
  {
  }

  lemma LoadIsSum(b0: Byte, b1: Byte, b2: Byte, b3: Byte)
    ensures Add(Add(Add(Shifted(b3, 24), Shifted(b2, 16)), Shifted(b1, 8)), Shifted(b0, 0)) == Load(b0, b1, b2, b3)
  {
    hide *;
    ShiftedIs(b3);
    ShiftedIs(b2);
    ShiftedIs(b1);
    ShiftedIs(b0);
    Partial2(b2, b3);
    Partial3(b1, b2, b3);
    Partial4(b0, b1, b2, b3);
    RawSum(b0, b1, b2, b3);
  }

  lemma SumOfBytes(x: Word, b0: Byte, b1: Byte, b2: Byte, b3: Byte)
    ensures AddByte(AddByte(AddByte(AddByte(x, b3, 24), b2, 16), b1, 8), b0, 0) == Add(x, Load(b0, b1, b2, b3))
  {
    hide Add, Shifted, Load;
    var s3, s2, s1, s0 := Shifted(b3, 24), Shifted(b2, 16), Shifted(b1, 8), Shifted(b0, 0);
    AddAssoc(x, s3, s2);
    AddAssoc(x, Add(s3, s2), s1);
    AddAssoc(x, Add(Add(s3, s2), s1), s0);
    LoadIsSum(b0, b1, b2, b3);
  }

  lemma RawFour(x: Word)
    ensures (((x + 1) + 1) + 1) + 1 == x + 4
  {
  }

  lemma RawShift(x: Word)
    ensures (x + 1) << 2 == (x << 2) + 4
  {
  }

  lemma CountStep(n: nat)
    ensures Count(n + 1) == Count(n) + 1
  {
    AddIs(Count(n), 1);
    hide Add;
  }

  lemma {:induction false} CountFour(n: nat)
    ensures Count(4 * n) == Count(n) << 2
  {
    if n > 0 {
      CountFour(n - 1);
      var m := 4 * (n - 1);
      hide *;
      CountStep(m);
      CountStep(m + 1);
      CountStep(m + 2);
      CountStep(m + 3);
      RawFour(Count(m));
      CountStep(n - 1);
      RawShift(Count(n - 1));
    }
  }

  /** A word of the byte form is the word it came from. */
  lemma {:induction false} LoadOfBytes(k: seq<Word>, i: nat)
    requires i < |k|
    ensures LoadAt(Bytes(k), 4 * i) == k[i]
  {
    LoadStored(k[0]);
    hide Load;
    if i > 0 {
      LoadOfBytes(k[1..], i - 1);
      var b, c := Bytes(k), Bytes(k[1..]);
      assert b[4 * i] == c[4 * i - 4] && b[4 * i + 1] == c[4 * i - 3] && b[4 * i + 2] == c[4 * i - 2] &&
          b[4 * i + 3] == c[4 * i - 1];
    }
  }

  lemma {:induction false} BytesDrop(k: seq<Word>, n: nat)
    requires n <= |k|
    ensures Bytes(k)[4 * n..] == Bytes(k[n..])
  {
    if n > 0 {
      BytesDrop(k[1..], n - 1);
      assert Bytes(k)[4 * n..] == Bytes(k[1..])[4 * n - 4..];
      assert k[1..][n - 1..] == k[n..];
    }
  }

  lemma TailOfBytes(x: Word, k: seq<Word>, i: nat)
    ensures Tail(x, Bytes(k), 4 * i) == if i < |k| then Add(x, k[i]) else x
  {
    var b := Bytes(k);
    assert |b| == 4 * |k|;
    hide Add, AddByte, Load, Bytes;
    if i < |k| {
      SumOfBytes(x, b[4 * i], b[4 * i + 1], b[4 * i + 2], b[4 * i + 3]);
      LoadOfBytes(k, i);
    }
  }

  lemma {:induction false} AbsorbedAlike(k: seq<Word>, s: State)
    ensures AbsorbedBytes(Bytes(k), s) == Absorbed(k, s)
    decreases |k|
  {
    var b := Bytes(k);
    hide Add, AddByte, Load, Bytes, Mixed, Finished, Tail, LoadAt;
    if |k| > 3 {
      LoadOfBytes(k, 0);
      LoadOfBytes(k, 1);
      LoadOfBytes(k, 2);
      BytesDrop(k, 3);
      AbsorbedAlike(k[3..], Mixed(Added(s, k[..3])));
    } else if k != [] {
      TailOfBytes(s.a, k, 0);
      TailOfBytes(s.b, k, 1);
      TailOfBytes(s.c, k, 2);
    }
  }

  /** On a little-endian machine the byte form over the bytes of n words is the word form, for every n and initval. */
  lemma FormsAgree(k: seq<Word>, initval: Word)
    ensures Hash(Bytes(k), initval) == Hash2(k, initval)
  {
    hide Add, Bytes, Absorbed, AbsorbedBytes, Count;
    CountFour(|k|);
    AbsorbedAlike(k, Start(Count(|k|) << 2, initval));
  }

  // ---------------------------------------------------------------- known values

  /** "Four score and seven years ago". */
  function FourScore(): seq<Byte> {
    [0x46, 0x6f, 0x75, 0x72, 0x20, 0x73, 0x63, 0x6f, 0x72, 0x65, 0x20, 0x61, 0x6e, 0x64, 0x20,
     0x73, 0x65, 0x76, 0x65, 0x6e, 0x20, 0x79, 0x65, 0x61, 0x72, 0x73, 0x20, 0x61, 0x67, 0x6f]
  }

  lemma KnownMix()
    ensures Mixed(State(0x51232e53, 0x4e11322d, 0x3fce247f)) == State(0xf859ad7a, 0x04bc57ae, 0x40dddd7e)
    ensures Mixed(State(0x6b7a11e8, 0x7321ce13, 0xa243569e)) == State(0x336aded2, 0x059f2642, 0xbd02ebd5)
  {
  }

  lemma KnownFinal()
    ensures Finished(State(0x948b5244, 0x059f95a9, 0xbd02ebd5)) == State(0x9a837816, 0xce7226e6, 0x17770551)
  {
  }

  lemma KnownCount()
    ensures Count(30) == 30
  {
    assert Count(1) == 1 && Count(2) == 2 && Count(3) == 3 && Count(4) == 4 && Count(5) == 5;
    assert Count(6) == 6 && Count(7) == 7 && Count(8) == 8 && Count(9) == 9 && Count(10) == 10;
    assert Count(11) == 11 && Count(12) == 12 && Count(13) == 13 && Count(14) == 14 && Count(15) == 15;
    assert Count(16) == 16 && Count(17) == 17 && Count(18) == 18 && Count(19) == 19 && Count(20) == 20;
    assert Count(21) == 21 && Count(22) == 22 && Count(23) == 23 && Count(24) == 24 && Count(25) == 25;
    assert Count(26) == 26 && Count(27) == 27 && Count(28) == 28 && Count(29) == 29 && Count(30) == 30;
  }

  lemma KnownLoads()
    ensures Load(0x46, 0x6f, 0x75, 0x72) == 0x72756f46
    ensures Load(0x20, 0x73, 0x63, 0x6f) == 0x6f637320
    ensures Load(0x72, 0x65, 0x20, 0x61) == 0x61206572
    ensures Load(0x6e, 0x64, 0x20, 0x73) == 0x7320646e
    ensures Load(0x65, 0x76, 0x65, 0x6e) == 0x6e657665
    ensures Load(0x20, 0x79, 0x65, 0x61) == 0x61657920
  {
  }

  lemma KnownSums()
    ensures Start(30, 0) == State(0xdeadbf0d, 0xdeadbf0d, 0xdeadbf0d)
    ensures Add(0xdeadbf0d, 0x72756f46) == 0x51232e53
    ensures Add(0xdeadbf0d, 0x6f637320) == 0x4e11322d
    ensures Add(0xdeadbf0d, 0x61206572) == 0x3fce247f
    ensures Add(0xf859ad7a, 0x7320646e) == 0x6b7a11e8
    ensures Add(0x04bc57ae, 0x6e657665) == 0x7321ce13
    ensures Add(0x40dddd7e, 0x61657920) == 0xa243569e
  {
  }

  lemma KnownTail(k: seq<Byte>)
    requires k == [0x72, 0x73, 0x20, 0x61, 0x67, 0x6f]
    ensures Tail(0x336aded2, k, 0) == 0x948b5244 && Tail(0x059f2642, k, 4) == 0x059f95a9
    ensures Tail(0xbd02ebd5, k, 8) == 0xbd02ebd5
  {
  }

  lemma AbsorbBlock(k: seq<Byte>, s: State)
    requires |k| > 12
    ensures AbsorbedBytes(k, s) ==
            AbsorbedBytes(k[12..], Mixed(State(Add(s.a, LoadAt(k, 0)), Add(s.b, LoadAt(k, 4)), Add(s.c, LoadAt(k, 8)))))
  {
  }

  lemma AbsorbRest(k: seq<Byte>, s: State)
    requires 0 < |k| <= 12
    ensures AbsorbedBytes(k, s) == Finished(State(Tail(s.a, k, 0), Tail(s.b, k, 4), Tail(s.c, k, 8)))
  {
  }

  /** The hash of that text is the one published with the hash function. */
  lemma KnownHash()
    ensures Hash(FourScore(), 0) == 0x17770551
  {
    hide Mixed, Finished, Add, Load, Start, Count, Tail, AbsorbedBytes;
    KnownCount();
    KnownLoads();
    KnownSums();
    KnownMix();
    KnownFinal();
    var k := FourScore();
    AbsorbBlock(k, State(0xdeadbf0d, 0xdeadbf0d, 0xdeadbf0d));
    AbsorbBlock(k[12..], State(0xf859ad7a, 0x04bc57ae, 0x40dddd7e));
    var rest := k[12..][12..];
    AbsorbRest(rest, State(0x336aded2, 0x059f2642, 0xbd02ebd5));
    KnownTail(rest);
  }
}
