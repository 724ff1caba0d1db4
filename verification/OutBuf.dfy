/** The output buffer of the userspace session: prints that retry, and sorted listings. */
module OutBuf {
  import opened Options
  import opened StableSort

  const DSET_OUTBUFLEN: nat := 8192
  const NUL: char := '\0'

  predicate Clean(s: string) {
    forall c :: c in s ==> c != NUL
  }

  /** The C string at an offset of a buffer. */
  function CString(buf: string, at: nat): (s: string)
    requires at <= |buf|
    ensures |s| <= |buf| - at
    decreases |buf| - at
  {
    if at == |buf| || buf[at] == NUL then "" else [buf[at]] + CString(buf, at + 1)
  }

  lemma {:induction false} CStringIs(buf: string, at: nat, s: string)
    requires Clean(s) && at + |s| < |buf| && buf[at..at + |s|] == s && buf[at + |s|] == NUL
    ensures CString(buf, at) == s
    decreases |s|
  {
    if s != [] {
      assert s[0] in s && buf[at] == s[0];
      assert buf[at + 1..at + 1 + |s[1..]|] == s[1..];
      assert forall c :: c in s[1..] ==> c in s;
      CStringIs(buf, at + 1, s[1..]);
    }
  }

  function Concat(chunks: seq<string>): string {
    if chunks == [] then "" else Concat(chunks[..|chunks| - 1]) + chunks[|chunks| - 1]
  }

  /** strcmp(a, b) <= 0. */
  predicate StrLe(a: string, b: string) {
    if a == "" then true
    else if b == "" then false
    else a[0] < b[0] || (a[0] == b[0] && StrLe(a[1..], b[1..]))
  }

  lemma {:induction false} StrLeTotal(a: string, b: string)
    ensures StrLe(a, b) || StrLe(b, a)
  {
    if a != "" && b != "" && a[0] == b[0] {
      StrLeTotal(a[1..], b[1..]);
    }
  }

  lemma {:induction false} StrLeTransitive(a: string, b: string, c: string)
    requires StrLe(a, b) && StrLe(b, c)
    ensures StrLe(a, c)
  {
    if a != "" && b != "" && c != "" && a[0] == b[0] == c[0] {
      StrLeTransitive(a[1..], b[1..], c[1..]);
    }
  }

  /** Where the texts differ first, or the shorter ends. */
  ghost predicate FirstDifference(a: string, b: string, i: nat) {
    i <= |a| && i <= |b| && a[..i] == b[..i] && (i == |a| || i == |b| || a[i] != b[i])
  }

  /** In alphabetical order: a is a prefix of b, or has the smaller character where they differ first. */
  ghost predicate Alphabetical(a: string, b: string) {
    exists i: nat :: FirstDifference(a, b, i) && (i == |a| || (i < |b| && a[i] < b[i]))
  }

  lemma {:induction false} StrLeAt(a: string, b: string, i: nat)
    requires FirstDifference(a, b, i)
    ensures StrLe(a, b) <==> i == |a| || (i < |b| && a[i] < b[i])
  {
    if i > 0 {
      assert a[0] == a[..i][0] == b[..i][0] == b[0];
      assert a[1..][..i - 1] == a[..i][1..] == b[..i][1..] == b[1..][..i - 1];
      StrLeAt(a[1..], b[1..], i - 1);
    }
  }

  lemma {:induction false} DifferSomewhere(a: string, b: string) returns (i: nat)
    ensures FirstDifference(a, b, i)
  {
    if a == "" || b == "" || a[0] != b[0] {
      return 0;
    }
    i := DifferSomewhere(a[1..], b[1..]);
    assert a[..i + 1] == [a[0]] + a[1..][..i] && b[..i + 1] == [b[0]] + b[1..][..i];
    i := i + 1;
  }

  /** strcmp orders texts alphabetically. */
  lemma StrLeIs(a: string, b: string)
    ensures StrLe(a, b) <==> Alphabetical(a, b)
  {
    var k := DifferSomewhere(a, b);
    StrLeAt(a, b, k);
    forall i: nat | FirstDifference(a, b, i) ensures StrLe(a, b) <==> i == |a| || (i < |b| && a[i] < b[i]) {
      StrLeAt(a, b, i);
    }
  }

  /** The texts come in alphabetical order. */
  ghost predicate Ascending(texts: seq<string>) {
    forall i, j :: 0 <= i < j < |texts| ==> Alphabetical(texts[i], texts[j])
  }

  lemma SortedAscends(texts: seq<string>)
    requires Sorted((a, b) => StrLe(a, b), texts)
    ensures Ascending(texts)
  {
    forall i, j | 0 <= i < j < |texts| ensures Alphabetical(texts[i], texts[j]) {
      StrLeIs(texts[i], texts[j]);
    }
  }

  /** The texts of entries that follow a header in the buffer, each behind a NUL. */
  function Joined(entries: seq<string>): string {
    if entries == [] then "" else Joined(entries[..|entries| - 1]) + [NUL] + entries[|entries| - 1]
  }

  /** Where the texts of the entries start behind a header of h characters. */
  function Offset(h: nat, entries: seq<string>, i: nat): nat
    requires i < |entries|
  {
    h + |Joined(entries[..i])| + 1
  }

  /** Header and entries are in the buffer, each ended by a NUL. */
  ghost predicate Laid(buf: string, pos: nat, header: string, entries: seq<string>, sorted: seq<nat>) {
    && pos < |buf| && buf[pos] == NUL && buf[..pos] == header + Joined(entries)
    && Clean(header) && (forall i :: 0 <= i < |entries| ==> Clean(entries[i]))
    && |sorted| == |entries| && forall i :: 0 <= i < |entries| ==> sorted[i] == Offset(|header|, entries, i)
  }

  lemma {:induction false} JoinedConcat(a: seq<string>, b: seq<string>)
    ensures Joined(a + b) == Joined(a) + Joined(b)
    decreases |b|
  {
    if b == [] {
      assert a + b == a;
    } else {
      var n := |b| - 1;
      JoinedConcat(a, b[..n]);
      assert (a + b)[..|a| + n] == a + b[..n] && (a + b)[|a| + n] == b[n];
    }
  }

  /** Behind a header or an entry comes a NUL or nothing. */
  lemma JoinedStart(entries: seq<string>)
    ensures Joined(entries) == "" || Joined(entries)[0] == NUL
  {
    if entries != [] {
      JoinedConcat(entries[..1], entries[1..]);
      assert entries == entries[..1] + entries[1..] && entries[..1][..0] == [];
      assert Joined(entries[..1])[0] == NUL;
    }
  }

  lemma JoinedOne(e: string)
    ensures Joined([e]) == [NUL] + e
  {
    assert [e][..0] == [];
    assert "" + [NUL] + e == [NUL] + e;
  }

  lemma JoinedAround(entries: seq<string>, i: nat)
    requires i < |entries|
    ensures Joined(entries) == Joined(entries[..i]) + [NUL] + entries[i] + Joined(entries[i + 1..])
  {
    hide *;
    var e, p, r := entries[i], entries[..i], entries[i + 1..];
    JoinedOne(e);
    TakenApart(entries, i);
    JoinedConcat(p + [e], r);
    JoinedConcat(p, [e]);
    Grouped(Joined(p), [NUL], e, Joined(r));
  }

  lemma TakenApart<T>(s: seq<T>, i: nat)
    requires i < |s|
    ensures (s[..i] + [s[i]]) + s[i + 1..] == s
  {
  }

  lemma Grouped<T>(a: seq<T>, b: seq<T>, c: seq<T>, d: seq<T>)
    ensures (a + (b + c)) + d == a + b + c + d
  {
  }

  /** A clean piece of the text that is followed by a NUL is a C string, with or without the first character. */
  lemma PieceIsCString(buf: string, pos: nat, a: string, e: string, rest: string)
    requires pos < |buf| && buf[pos] == NUL && buf[..pos] == a + e + rest && Clean(e) && (rest == "" || rest[0] == NUL)
    ensures CString(buf, |a|) == e
    ensures a != "" ==> CString(buf[0 := NUL], |a|) == e
  {
    var t := a + e + rest;
    assert buf[|a|..|a| + |e|] == t[|a|..|a| + |e|] == e;
    assert buf[|a| + |e|] == NUL by {
      if rest != "" { assert buf[|a| + |e|] == t[|a| + |e|] == rest[0]; }
    }
    CStringIs(buf, |a|, e);
    if a != "" {
      assert buf[0 := NUL][|a|..|a| + |e|] == e;
      CStringIs(buf[0 := NUL], |a|, e);
    }
  }

  lemma LaidHeader(buf: string, pos: nat, header: string, entries: seq<string>, sorted: seq<nat>)
    requires Laid(buf, pos, header, entries, sorted)
    ensures CString(buf, 0) == header
  {
    hide CString, Joined, Clean;
    JoinedStart(entries);
    assert header + Joined(entries) == "" + header + Joined(entries);
    PieceIsCString(buf, pos, "", header, Joined(entries));
  }

  lemma LaidEntry(buf: string, pos: nat, header: string, entries: seq<string>, sorted: seq<nat>, i: nat)
    requires Laid(buf, pos, header, entries, sorted) && i < |entries|
    ensures i < |sorted| && sorted[i] <= |buf| && CString(buf[0 := NUL], sorted[i]) == entries[i]
  {
    hide CString, Joined, Clean;
    JoinedAround(entries, i);
    JoinedStart(entries[i + 1..]);
    var a, rest := header + Joined(entries[..i]) + [NUL], Joined(entries[i + 1..]);
    assert header + (Joined(entries[..i]) + [NUL] + entries[i] + rest) == a + entries[i] + rest;
    PieceIsCString(buf, pos, a, entries[i], rest);
  }

  /** The C strings in the buffer: the header at its start, and every entry at its offset, also with the first
      character of the buffer gone. */
  lemma LaidStrings(buf: string, pos: nat, header: string, entries: seq<string>, sorted: seq<nat>)
    requires Laid(buf, pos, header, entries, sorted)
    ensures CString(buf, 0) == header
    ensures forall i :: 0 <= i < |entries| ==> sorted[i] <= |buf| && CString(buf[0 := NUL], sorted[i]) == entries[i]
  {
    LaidHeader(buf, pos, header, entries, sorted);
    forall i | 0 <= i < |entries|
      ensures sorted[i] <= |buf| && CString(buf[0 := NUL], sorted[i]) == entries[i]
    {
      LaidEntry(buf, pos, header, entries, sorted, i);
    }
  }

  /** One more entry. */
  lemma LaidMore(buf: string, pos: nat, header: string, entries: seq<string>, sorted: seq<nat>, buf': string, pos': nat,
                 e: string)
    requires Laid(buf, pos, header, entries, sorted) && Clean(e)
    requires pos' == pos + 1 + |e| < |buf'| && buf'[pos'] == NUL && buf'[..pos'] == buf[..pos] + [NUL] + e
    ensures Laid(buf', pos', header, entries + [e], sorted + [pos + 1])
  {
    var more := entries + [e];
    assert more[..|entries|] == entries;
    assert forall i :: 0 <= i < |entries| ==> more[..i] == entries[..i];
    hide Clean;
    assert (header + Joined(entries)) + [NUL] + e == header + (Joined(entries) + [NUL] + e);
  }

  // ---------------------------------------------------------------- the order of a listing

  function TextAt(buf: string, at: nat): string {
    if at <= |buf| then CString(buf, at) else ""
  }

  function Texts(buf: string, offsets: seq<nat>): seq<string> {
    seq(|offsets|, i requires 0 <= i < |offsets| => TextAt(buf, offsets[i]))
  }

  function ByText(buf: string): Le<nat> {
    (x: nat, y: nat) => StrLe(TextAt(buf, x), TextAt(buf, y))
  }

  function Without<T>(s: seq<T>, j: nat): seq<T>
    requires j < |s|
  {
    s[..j] + s[j + 1..]
  }

  lemma WithoutOne<T>(s: seq<T>, j: nat)
    requires j < |s|
    ensures multiset(s) == multiset(Without(s, j)) + multiset{s[j]}
    ensures multiset(Without(s, j)) == multiset(s) - multiset{s[j]}
  {
    TakenApart(s, j);
  }

  lemma TextsWithout(buf: string, s: seq<nat>, j: nat)
    requires j < |s|
    ensures multiset(Texts(buf, s)) == multiset(Texts(buf, Without(s, j))) + multiset{TextAt(buf, s[j])}
  {
    WithoutOne(Texts(buf, s), j);
    assert Without(Texts(buf, s), j) == Texts(buf, Without(s, j));
  }

  lemma {:induction false} TextsMultiset(buf: string, a: seq<nat>, b: seq<nat>)
    requires multiset(a) == multiset(b)
    ensures multiset(Texts(buf, a)) == multiset(Texts(buf, b))
    decreases |a|
  {
    if a == [] {
      assert |b| == |multiset(b)| == 0;
    } else {
      assert a[0] in multiset(b);
      var j :| 0 <= j < |b| && b[j] == a[0];
      assert |Without(a, 0)| < |a|;
      hide *;
      WithoutOne(a, 0);
      WithoutOne(b, j);
      TextsMultiset(buf, Without(a, 0), Without(b, j));
      TextsWithout(buf, a, 0);
      TextsWithout(buf, b, j);
    }
  }

  /** Sorting the offsets by text sorts the texts, and loses or doubles none. */
  lemma TextsSorted(buf: string, offsets: seq<nat>)
    ensures var ts := Texts(buf, Sort(ByText(buf), offsets));
            Ascending(ts) && multiset(ts) == multiset(Texts(buf, offsets))
  {
    var le := ByText(buf);
    forall x, y | x in offsets && y in offsets ensures le(x, y) || le(y, x) {
      StrLeTotal(TextAt(buf, x), TextAt(buf, y));
    }
    forall x, y, z | x in offsets && y in offsets && z in offsets && le(x, y) && le(y, z) ensures le(x, z) {
      StrLeTransitive(TextAt(buf, x), TextAt(buf, y), TextAt(buf, z));
    }
    SortFacts(le, offsets, offsets);
    TextsMultiset(buf, Sort(le, offsets), offsets);
    SortedAscends(Texts(buf, Sort(le, offsets)));
  }

  class OutBuffer {
    var outbuf: array<char>
    var pos: nat
    var sort: bool
    var sorted: seq<nat>            // offsets of the entries, in the order they came
    var chunks: seq<string>         // what was handed to the print function
    ghost var header: string        // sorted mode: the text before the first entry
    ghost var entries: seq<string>  // sorted mode: the texts of the entries

    ghost predicate Room()
      reads this, outbuf
    {
      DSET_OUTBUFLEN <= outbuf.Length && pos < outbuf.Length
    }

    /** The text in the buffer ends where the next print goes. */
    ghost predicate Valid()
      reads this, outbuf
    {
      Room() && outbuf[pos] == NUL && Clean(outbuf[..pos])
    }

    /** Everything printed so far in unsorted mode. */
    ghost function Printed(): string
      requires pos <= outbuf.Length
      reads this, outbuf
    {
      Concat(chunks) + outbuf[..pos]
    }

    constructor ()
      ensures Valid() && fresh(outbuf) && Printed() == "" && !sort && sorted == [] && chunks == []
    {
      outbuf := new char[DSET_OUTBUFLEN](_ => NUL);
      pos, sort, sorted, chunks, header, entries := 0, false, [], [], "", [];
      new;
      assert outbuf[..0] == "";
    }

    method CallOutfn()
      requires pos < outbuf.Length && outbuf[pos] == NUL
      modifies this`pos, this`chunks, outbuf
      ensures chunks == old(chunks) + [CString(old(outbuf[..]), 0)] && pos == 0
      ensures outbuf[..] == old(outbuf[..])[0 := NUL]
    {
      chunks := chunks + [CString(outbuf[..], 0)];
      outbuf[0] := NUL;
      pos := 0;
    }

    /** A larger buffer with the same text. */
    method ReallocOutbuf()
      modifies this`outbuf
      ensures fresh(outbuf) && outbuf.Length == old(outbuf.Length) + DSET_OUTBUFLEN
      ensures outbuf[..old(outbuf.Length)] == old(outbuf[..])
    {
      var buf := new char[outbuf.Length + DSET_OUTBUFLEN];
      var i := 0;
      while i < outbuf.Length
        invariant i <= outbuf.Length && outbuf == old(outbuf) && buf[..i] == outbuf[..i]
        modifies buf
      {
        buf[i] := outbuf[i];
        i := i + 1;
      }
      outbuf := buf;
    }

    /** Print what fits, always with a terminator; the answer is the length it would have taken. */
    method Vsnprintf(s: string) returns (ret: nat)
      requires pos < outbuf.Length
      modifies outbuf
      ensures ret == |s| && outbuf[..pos] == old(outbuf[..pos])
      ensures pos + |s| < outbuf.Length ==> outbuf[pos..pos + |s|] == s && outbuf[pos + |s|] == NUL
    {
      var i := 0;
      while i < |s| && pos + i + 1 < outbuf.Length
        invariant i <= |s| && pos + i < outbuf.Length
        invariant outbuf[..pos] == old(outbuf[..pos]) && outbuf[pos..pos + i] == s[..i]
      {
        outbuf[pos + i] := s[i];
        i := i + 1;
      }
      outbuf[pos + i] := NUL;
      ret := |s|;
    }

    /** The retry of a print that did not fit: a sorted listing grows the buffer, any other pushes the text out. */
    method HandleSnprintfError(ret: nat, loop: bool) returns (again: bool, failed: bool)
      requires Room() && (pos + ret < outbuf.Length ==> outbuf[pos + ret] == NUL)
      requires !sort ==> Clean(outbuf[..pos])
      modifies this`pos, this`chunks, this`outbuf, outbuf
      ensures Room() && (outbuf == old(outbuf) || fresh(outbuf))
      ensures failed <==> old(pos + ret >= outbuf.Length) && loop
      ensures again <==> old(pos + ret >= outbuf.Length) && !loop
      ensures again && sort ==>
                pos == old(pos) && chunks == old(chunks) &&
                outbuf.Length == old(outbuf.Length) + DSET_OUTBUFLEN
                && outbuf[..pos] == old(outbuf[..pos])
      ensures again && !sort ==> pos == 0 && Concat(chunks) == old(Printed()) && outbuf.Length == old(outbuf.Length)
      ensures !again && !failed ==> pos == old(pos) + ret && chunks == old(chunks) && outbuf == old(outbuf)
      ensures !again ==> outbuf[..] == old(outbuf[..])
    {
      again, failed := false, false;
      if pos + ret >= outbuf.Length {
        if sort && !loop {
          ghost var before := outbuf[..];
          ReallocOutbuf();
          assert outbuf[..pos] == outbuf[..|before|][..pos];
          return true, false;
        }
        if loop {
          return false, true;
        }
        outbuf[pos] := NUL;
        CStringIs(outbuf[..], 0, outbuf[..pos]);
        ConcatAppend(chunks, outbuf[..pos]);
        CallOutfn();
        return true, false;
      }
      pos := pos + ret;
    }

    /** Print a text that is shorter than the buffer increment: it is all there, behind everything printed before. */
    method SafePrintf(s: string)
      requires Room() && Clean(s) && |s| < DSET_OUTBUFLEN && (!sort ==> Clean(outbuf[..pos]))
      modifies this`pos, this`chunks, this`outbuf, outbuf
      ensures Room() && outbuf[pos] == NUL && (outbuf == old(outbuf) || fresh(outbuf))
      ensures !sort ==> Valid() && Printed() == old(Printed()) + s
      ensures sort ==> pos == old(pos) + |s| && outbuf[..pos] == old(outbuf[..pos]) + s && chunks == old(chunks)
    {
      CleanConcat(outbuf[..pos], s);
      CleanConcat([], s);
      Assoc(Concat(chunks), outbuf[..pos], s);
      hide Clean, Concat;
      var again, failed := TryPrint(s, false);
      if again {
        again, failed := TryPrint(s, true);
      }
    }

    /** One try to print; a text that fits is behind what the buffer held. */
    method TryPrint(s: string, loop: bool) returns (again: bool, failed: bool)
      requires Room() && (!sort ==> Clean(outbuf[..pos]))
      modifies this`pos, this`chunks, this`outbuf, outbuf
      ensures Room() && (outbuf == old(outbuf) || fresh(outbuf))
      ensures failed <==> old(pos) + |s| >= old(outbuf.Length) && loop
      ensures again <==> old(pos) + |s| >= old(outbuf.Length) && !loop
      ensures again && sort ==>
                && pos == old(pos) && chunks == old(chunks) && outbuf.Length == old(outbuf.Length) + DSET_OUTBUFLEN
                && outbuf[..pos] == old(outbuf[..pos])
      ensures again && !sort ==> pos == 0 && Concat(chunks) == old(Printed()) && outbuf.Length == old(outbuf.Length)
      ensures !again && !failed ==>
                && pos == old(pos) + |s| && chunks == old(chunks) && outbuf == old(outbuf)
                && outbuf[..pos] == old(outbuf[..pos]) + s && outbuf[pos] == NUL
    {
      hide Clean, Concat;
      ghost var before := outbuf[..pos];
      var ret := Vsnprintf(s);
      ghost var text := outbuf[..];
      assert pos + |s| < |text| ==> text[..pos + |s|] == before + s && text[pos + |s|] == NUL by {
        assert text[..pos] == before;
        assert pos + |s| < |text| ==> text[..pos + |s|] == text[..pos] + text[pos..pos + |s|];
      }
      again, failed := HandleSnprintfError(ret, loop);
      assert !again ==> outbuf[..] == text;
      assert !again && !failed ==> outbuf[..pos] == text[..pos];
    }

    /** A sorted listing under way. */
    ghost predicate Listing()
      reads this, outbuf
    {
      sort && Room() && Laid(outbuf[..], pos, header, entries, sorted)
    }

    /** The header of a set is printed: from here on its entries are collected to be sorted. */
    method BeginSorted()
      requires Valid() && sorted == []
      modifies this`sort, this`header, this`entries
      ensures Listing() && header == outbuf[..pos] && entries == []
    {
      sort, header, entries := true, outbuf[..pos], [];
      assert outbuf[..][..pos] == header + "";
    }

    /** Several prints in a row. */
    method PrintPieces(pieces: seq<string>)
      requires Room() && (!sort ==> Valid()) && pieces != []
      requires forall i :: 0 <= i < |pieces| ==> Clean(pieces[i]) && |pieces[i]| < DSET_OUTBUFLEN
      modifies this`pos, this`chunks, this`outbuf, outbuf
      ensures Room() && outbuf[pos] == NUL && (outbuf == old(outbuf) || fresh(outbuf))
      ensures !sort ==> Valid() && Printed() == old(Printed()) + Concat(pieces)
      ensures sort ==>
                outbuf[..pos] == old(outbuf[..pos]) + Concat(pieces) && pos == old(pos) + |Concat(pieces)| &&
                chunks == old(chunks)
    {
      ghost var start, before := Printed(), outbuf[..pos];
      assert pieces[..0] == [] && Concat([]) == "";
      hide Clean, Concat;
      var i := 0;
      while i < |pieces|
        invariant i <= |pieces| && Room() && (outbuf == old(outbuf) || fresh(outbuf))
        invariant i > 0 ==> outbuf[pos] == NUL
        invariant !sort ==> Valid() && Printed() == start + Concat(pieces[..i])
        invariant sort ==> outbuf[..pos] == before + Concat(pieces[..i]) && chunks == old(chunks)
      {
        ConcatNext(pieces, i);
        Assoc(if sort then before else start, Concat(pieces[..i]), pieces[i]);
        SafePrintf(pieces[i]);
        i := i + 1;
      }
      assert pieces[..|pieces|] == pieces;
      assert sort ==> |outbuf[..pos]| == |before| + |Concat(pieces)|;
    }

    /** The separator before an entry of a sorted listing. */
    method StartEntry() returns (offset: nat)
      requires Room() && outbuf[pos] == NUL
      modifies this`pos, this`outbuf
      ensures Room() && pos == old(pos) + 1 == offset && outbuf[..pos] == old(outbuf[..pos]) + [NUL]
      ensures outbuf == old(outbuf) || fresh(outbuf)
    {
      if outbuf.Length <= pos + 1 {
        ReallocOutbuf();
        assert outbuf[..pos + 1] == outbuf[..old(outbuf.Length)][..pos + 1];
      }
      pos := pos + 1;
      offset := pos;
    }

    /** A whole entry, printed piece by piece; a sorted listing remembers where it starts. */
    method ListEntry(pieces: seq<string>)
      requires (if sort then Listing() else Valid()) && pieces != []
      requires forall i :: 0 <= i < |pieces| ==> Clean(pieces[i]) && |pieces[i]| < DSET_OUTBUFLEN
      modifies this, outbuf
      ensures sort == old(sort) && (outbuf == old(outbuf) || fresh(outbuf))
      ensures !sort ==> Valid() && Printed() == old(Printed()) + Concat(pieces)
      ensures sort ==>
                Listing() && header == old(header) && entries == old(entries) + [Concat(pieces)] &&
                chunks == old(chunks)
    {
      ConcatClean(pieces);
      ghost var buf, pos0 := outbuf[..], pos;
      assert buf[..pos0] == outbuf[..pos];
      hide Clean, Concat;
      if sort {
        var offset := StartEntry();
        PrintPieces(pieces);
        LaidMore(buf, pos0, header, entries, sorted, outbuf[..], pos, Concat(pieces));
        hide Laid;
        entries := entries + [Concat(pieces)];
        sorted := sorted + [offset];
      } else {
        PrintPieces(pieces);
      }
    }

    /** Hand the entries over in the order of their offsets. */
    method PrintSorted()
      modifies this`chunks
      ensures chunks == old(chunks) + Texts(outbuf[..], sorted)
    {
      ghost var before := chunks;
      var buf := outbuf[..];
      var i := 0;
      TextsNext(buf, sorted, 0);
      hide Texts, TextAt;
      while i < |sorted|
        invariant i <= |sorted| && chunks == before + Texts(buf, sorted)[..i]
      {
        TextsNext(buf, sorted, i);
        chunks := chunks + [TextAt(buf, sorted[i])];
        i := i + 1;
      }
    }

    /** Push out the header; the entries are still in the buffer. */
    method SendHeader()
      requires Listing()
      modifies this`pos, this`chunks, outbuf
      ensures Room() && outbuf[0] == NUL && pos == 0 && chunks == old(chunks) + [header]
      ensures var ts := Texts(outbuf[..], Sort(ByText(outbuf[..]), sorted));
              Ascending(ts) && multiset(ts) == multiset(entries)
    {
      assert outbuf[pos] == NUL;
      hide CString, Joined, StrLe, Sort, Ascending, Texts, Laid, ByText, Alphabetical;
      ghost var buf := outbuf[..];
      Listed(buf, pos, header, entries, sorted);
      CallOutfn();
      assert outbuf[..] == buf[0 := NUL];
    }

    /** Sort the entries by text and hand them over. */
    method HandOver() returns (ghost texts: seq<string>)
      modifies this`chunks, this`sorted
      ensures texts == Texts(outbuf[..], Sort(ByText(outbuf[..]), old(sorted))) && chunks == old(chunks) + texts
    {
      hide *;
      sorted := Sort(ByText(outbuf[..]), sorted);
      texts := Texts(outbuf[..], sorted);
      PrintSorted();
    }

    /** The end of a sorted listing: the header, and then every entry exactly once, in strcmp order. */
    method EndSorted() returns (ghost texts: seq<string>)
      requires Listing()
      modifies this`pos, this`chunks, this`sorted, this`entries, this`header, outbuf
      ensures chunks == old(chunks) + [old(header)] + texts
      ensures Ascending(texts) && multiset(texts) == multiset(old(entries))
      ensures Valid() && pos == 0 && sorted == []
    {
      SendHeader();
      hide Ascending, Texts, ByText, Sort, Concat;
      texts := HandOver();
      sorted, entries, header := [], [], "";
    }

    /** Push out the text in the buffer. */
    method PushOut()
      requires Valid()
      modifies this`pos, this`chunks, outbuf
      ensures Valid() && pos == 0 && chunks == old(chunks) + [old(outbuf[..pos])]
      ensures Concat(chunks) == old(Printed())
    {
      CStringIs(outbuf[..], 0, outbuf[..pos]);
      ConcatAppend(chunks, outbuf[..pos]);
      CallOutfn();
    }

    /** The closing text, if there is any. */
    method PrintClosing(close: Closing)
      requires Valid()
      modifies this`pos, this`chunks, this`outbuf, outbuf
      ensures Valid() && (outbuf == old(outbuf) || fresh(outbuf))
      ensures if sort then outbuf[..pos] == old(outbuf[..pos]) + Concat(ClosingTexts(close)) && chunks == old(chunks)
              else Printed() == old(Printed()) + Concat(ClosingTexts(close))
    {
      var pieces := ClosingTexts(close);
      ClosingClean(close);
      CleanConcat(outbuf[..pos], Concat(pieces));
      hide Clean, Concat, ClosingTexts, SetClosing;
      if pieces != [] {
        PrintPieces(pieces);
      } else {
        assert outbuf[..pos] + "" == outbuf[..pos] && Printed() + "" == Printed();
      }
    }

    /** The end of a set's listing: sorted entries are handed over, and the closing text of XML mode follows, which
        is pushed out with whatever is in the buffer. */
    method PrintSetDone(close: Closing) returns (ghost texts: seq<string>)
      requires if sort then Listing() else Valid()
      modifies this, outbuf
      ensures Valid() && pos == 0 && sort == old(sort)
      ensures if sort
              then sorted == [] && chunks == old(chunks) + [old(header)] + texts + [Concat(ClosingTexts(close))]
              else Concat(chunks) == old(Printed()) + Concat(ClosingTexts(close))
      ensures sort ==> Ascending(texts) && multiset(texts) == multiset(old(entries))
    {
      hide Concat, ClosingTexts, Clean, Ascending, StrLe, Laid;
      texts := [];
      if sort {
        texts := EndSorted();
        assert outbuf[..pos] == "" && "" + Concat(ClosingTexts(close)) == Concat(ClosingTexts(close));
      }
      PrintClosing(close);
      PushOut();
    }
  }

  /** When a listing closes: in XML mode, listing names or headers only, behind a set, at the end of the dump. */
  datatype Closing = Closing(xml: bool, names: bool, headers: bool, named: bool, done: bool)

  function SetClosing(c: Closing): string {
    if c.headers then "</dset>\n" else "</members>\n</dset>\n"
  }

  lemma ClosingClean(c: Closing)
    ensures forall i :: 0 <= i < |ClosingTexts(c)| ==>
              Clean(ClosingTexts(c)[i]) && |ClosingTexts(c)[i]| < DSET_OUTBUFLEN
    ensures Clean(Concat(ClosingTexts(c))) && Concat([]) == ""
  {
    ConcatClean(ClosingTexts(c));
  }

  function ClosingTexts(c: Closing): seq<string> {
    (if c.xml && !c.names && c.named then [SetClosing(c)] else []) + (if c.xml && c.done then ["</dsets>\n"] else [])
  }

  /** A tag of the XML output. */
  datatype Tag = Opens(e: string) | Closes(e: string)

  /** What remains open behind the tags; None if one of them closes an element that is not the innermost. */
  function OpenAfter(tags: seq<Tag>, open: seq<string>): Option<seq<string>> {
    if tags == [] then Some(open)
    else match tags[0]
      case Opens(e) => OpenAfter(tags[1..], open + [e])
      case Closes(e) =>
        if open != [] && open[|open| - 1] == e then OpenAfter(tags[1..], open[..|open| - 1]) else None
  }

  function Pair(e: string): seq<Tag> {
    [Opens(e), Closes(e)]
  }

  /** The tags at the start of a set: its header, and the start of its members unless only headers are listed. */
  function SetTags(headers: bool): seq<Tag> {
    [Opens("dset")] + (Pair("type") + (Pair("revision") +
      ([Opens("header")] + (Pair("memsize") + (Pair("references") + ([Closes("header")] +
        (if headers then [] else [Opens("members")])))))))
  }

  /** End tags as they are printed, each on a line. */
  function Lines(tags: seq<Tag>): string {
    if tags == [] then "" else "</" + tags[0].e + ">\n" + Lines(tags[1..])
  }

  lemma TagNext(e: string, rest: seq<Tag>, open: seq<string>)
    ensures OpenAfter([Opens(e)] + rest, open) == OpenAfter(rest, open + [e])
    ensures OpenAfter([Closes(e)] + rest, open + [e]) == OpenAfter(rest, open)
    ensures OpenAfter(Pair(e) + rest, open) == OpenAfter(rest, open)
  {
    assert ([Opens(e)] + rest)[1..] == rest && ([Closes(e)] + rest)[1..] == rest;
    assert (open + [e])[..|open|] == open;
    assert (Pair(e) + rest)[1..] == [Closes(e)] + rest;
  }

  /** The start of a set leaves the set open, and its members unless only headers are listed. */
  lemma SetLeavesOpen(headers: bool, open: seq<string>)
    ensures OpenAfter(SetTags(headers), open) == Some(open + ["dset"] + if headers then [] else ["members"])
  {
    hide Pair, OpenAfter;
    var set_ := open + ["dset"];
    var t8 := if headers then [] else [Opens("members")];
    var t7 := [Closes("header")] + t8;
    var t6 := Pair("references") + t7;
    var t5 := Pair("memsize") + t6;
    var t4 := [Opens("header")] + t5;
    var t3 := Pair("revision") + t4;
    TagNext("dset", Pair("type") + t3, open);
    TagNext("type", t3, set_);
    TagNext("revision", t4, set_);
    TagNext("header", t5, set_);
    TagNext("memsize", t6, set_ + ["header"]);
    TagNext("references", t7, set_ + ["header"]);
    TagNext("header", t8, set_);
    TagNext("members", [], set_);
    AllRead(set_);
    AllRead(set_ + ["members"]);
    assert [Opens("members")] + [] == [Opens("members")] && set_ + [] == set_;
  }

  lemma AllRead(open: seq<string>)
    ensures OpenAfter([], open) == Some(open)
  {
  }

  /** The end tags printed for the elements closed, innermost first. */
  lemma EndTags()
    ensures Lines([Closes("dset")]) == "</dset>\n" && Lines([Closes("dsets")]) == "</dsets>\n"
    ensures Lines([Closes("members"), Closes("dset")]) == "</members>\n</dset>\n"
  {
    assert Lines([]) == "";
    assert [Closes("dset")][1..] == [] && [Closes("dsets")][1..] == [];
    assert "</" + "dset" + ">\n" == "</dset>\n" && "</" + "dsets" + ">\n" == "</dsets>\n";
    assert [Closes("members"), Closes("dset")][1..] == [Closes("dset")];
    assert "</" + "members" + ">\n" + "</dset>\n" == "</members>\n</dset>\n";
  }

  lemma LinesConcat(a: seq<Tag>, e: string)
    ensures Lines(a + [Closes(e)]) == Lines(a) + Lines([Closes(e)])
  {
    if a != [] {
      assert (a + [Closes(e)])[1..] == a[1..] + [Closes(e)];
      LinesConcat(a[1..], e);
    } else {
      assert a + [Closes(e)] == [Closes(e)];
    }
  }

  /** The end tags of a set. */
  function SetEnd(headers: bool): seq<Tag> {
    if headers then [Closes("dset")] else [Closes("members"), Closes("dset")]
  }

  lemma SetEndCloses(headers: bool, rest: seq<Tag>, open: seq<string>)
    ensures OpenAfter(SetEnd(headers) + rest, open + ["dset"] + if headers then [] else ["members"])
            == OpenAfter(rest, open)
  {
    hide OpenAfter;
    TagNext("members", [Closes("dset")] + rest, open + ["dset"]);
    TagNext("dset", rest, open);
    assert [Closes("members"), Closes("dset")] + rest == [Closes("members")] + ([Closes("dset")] + rest);
    assert open + ["dset"] + [] == open + ["dset"];
  }

  /** The tags of a closing. */
  function ClosingTags(c: Closing): seq<Tag> {
    (if c.named then SetEnd(c.headers) else []) + (if c.done then [Closes("dsets")] else [])
  }

  lemma ClosingIsTags(c: Closing)
    requires c.xml && (c.names ==> !c.named)
    ensures Concat(ClosingTexts(c)) == Lines(ClosingTags(c))
  {
    var set_ := if c.named then SetEnd(c.headers) else [];
    EndTags();
    assert Lines([]) == "" && Lines(SetEnd(c.headers)) == SetClosing(c);
    LinesConcat(set_, "dsets");
    assert ClosingTags(c) == if c.done then set_ + [Closes("dsets")] else set_;
    var end := "</dsets>\n";
    assert ClosingTexts(c) == if c.named && c.done then [SetClosing(c), end] else if c.named then [SetClosing(c)]
                              else if c.done then [end] else [];
    hide *;
    ConcatFew(SetClosing(c), "</dsets>\n");
    assert "" + Lines([Closes("dsets")]) == Lines([Closes("dsets")]);
  }

  lemma ConcatFew(a: string, b: string)
    ensures Concat([]) == "" && Concat([a]) == a && Concat([b]) == b && Concat([a, b]) == a + b
  {
    ConcatAppend([], a);
    ConcatAppend([], b);
    ConcatAppend([a], b);
    assert Concat([]) == "";
    hide Concat;
    assert [] + [a] == [a] && [] + [b] == [b] && [a] + [b] == [a, b];
    assert "" + a == a && "" + b == b;
  }

  /** What is printed at the end closes exactly what is open: the members and the set, if one has been started, and at
      the end of the dump the document. Listing names starts no set. */
  lemma ClosesWhatIsOpen(c: Closing)
    requires c.xml && (c.names ==> !c.named)
    ensures Concat(ClosingTexts(c)) == Lines(ClosingTags(c))
    ensures var open := OpenAfter(if c.named then SetTags(c.headers) else [], ["dsets"]);
            open.Some? && OpenAfter(ClosingTags(c), open.value) == Some(if c.done then [] else ["dsets"])
  {
    ClosingIsTags(c);
    hide OpenAfter, SetTags, SetEnd, Lines, Concat, ClosingTexts;
    var rest := if c.done then [Closes("dsets")] else [];
    SetLeavesOpen(c.headers, ["dsets"]);
    SetEndCloses(c.headers, rest, ["dsets"]);
    AllRead(["dsets"]);
    AllRead([]);
    TagNext("dsets", [], []);
    assert [] + ["dsets"] == ["dsets"] && [Closes("dsets")] + [] == [Closes("dsets")] && [] + rest == rest;
  }

  lemma TextsNext(buf: string, offsets: seq<nat>, i: nat)
    ensures var ts := Texts(buf, offsets);
            |ts| == |offsets| && ts[..|offsets|] == ts
            && (i < |offsets| ==> ts[..i + 1] == ts[..i] + [TextAt(buf, offsets[i])])
  {
  }

  /** What a sorted listing prints from the buffer. */
  lemma Listed(buf: string, pos: nat, header: string, entries: seq<string>, sorted: seq<nat>)
    requires Laid(buf, pos, header, entries, sorted)
    ensures CString(buf, 0) == header
    ensures var b := buf[0 := NUL];
            var ts := Texts(b, Sort(ByText(b), sorted));
            Ascending(ts) && multiset(ts) == multiset(entries)
  {
    LaidStrings(buf, pos, header, entries, sorted);
    var b := buf[0 := NUL];
    assert Texts(b, sorted) == entries;
    TextsSorted(b, sorted);
  }

  lemma Assoc<T>(a: seq<T>, b: seq<T>, c: seq<T>)
    ensures (a + b) + c == a + (b + c)
  {
  }

  lemma CleanConcat(a: string, b: string)
    requires Clean(b)
    ensures Clean(a) ==> Clean(a + b)
  {
  }

  lemma {:induction false} ConcatClean(pieces: seq<string>)
    requires forall i :: 0 <= i < |pieces| ==> Clean(pieces[i])
    ensures Clean(Concat(pieces))
    decreases |pieces|
  {
    if pieces != [] {
      ConcatClean(pieces[..|pieces| - 1]);
    }
  }

  lemma ConcatNext(pieces: seq<string>, i: nat)
    requires i < |pieces|
    ensures Concat(pieces[..i + 1]) == Concat(pieces[..i]) + pieces[i]
  {
    assert pieces[..i + 1][..i] == pieces[..i];
  }

  lemma ConcatAppend(chunks: seq<string>, s: string)
    ensures Concat(chunks + [s]) == Concat(chunks) + s
  {
    assert (chunks + [s])[..|chunks|] == chunks;
  }
}
