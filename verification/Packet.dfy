/** Matching a packet: the QNAME of a DNS message (section 3.1 of RFC 1035) against a set of domains. */
module Packet {
  import opened Timeout
  import opened HashTable
  import opened HashSet

  const DSET_MAX_DOMAIN_LEN: nat := 256
  const NUL: char := '\0'

  // ---------------------------------------------------------------- names and buffers

  predicate IsLabel(l: string) {
    0 < |l| <= 63 && forall c :: c in l ==> c != NUL && c != '.'
  }

  predicate IsName(labels: seq<string>) {
    forall k :: 0 <= k < |labels| ==> IsLabel(labels[k])
  }

  function Join(labels: seq<string>): string {
    if |labels| == 0 then ""
    else if |labels| == 1 then labels[0]
    else labels[0] + "." + Join(labels[1..])
  }

  /** Each label with a dot behind it. */
  function Dotted(labels: seq<string>): string {
    if labels == [] then "" else labels[0] + "." + Dotted(labels[1..])
  }

  /** The wire form: every label behind its length, and the empty label at the end. */
  function QName(labels: seq<string>): string
    requires IsName(labels)
  {
    if labels == [] then [NUL] else [|labels[0]| as char] + labels[0] + QName(labels[1..])
  }

  function Zeros(n: nat): string {
    seq(n, _ => NUL)
  }

  /** The canonical element: the text and nothing but zeros behind it. */
  function Padded(s: string): string
    requires |s| <= DSET_MAX_DOMAIN_LEN
  {
    s + Zeros(DSET_MAX_DOMAIN_LEN - |s|)
  }

  function FirstNul(s: string, n: nat, i: nat): (z: nat)
    requires i <= n <= |s|
    ensures i <= z <= n && (z < n ==> s[z] == NUL)
    ensures forall j :: i <= j < z ==> s[j] != NUL
    decreases n - i
  {
    if i == n || s[i] == NUL then i else FirstNul(s, n, i + 1)
  }

  /** The C string in a buffer. */
  function Text(s: string): string {
    s[..FirstNul(s, |s|, 0)]
  }

  lemma TextPadded(s: string)
    requires |s| < DSET_MAX_DOMAIN_LEN && forall c :: c in s ==> c != NUL
    ensures Text(Padded(s)) == s
  {
    var p := Padded(s);
    var z := FirstNul(p, |p|, 0);
    assert p[|s|] == NUL;
    assert forall j :: 0 <= j < |s| ==> p[j] == s[j] && s[j] in s;
    assert z == |s|;
  }

  /** What strncpy leaves in its n target bytes. */
  function Strn(src: string, n: nat): (r: string)
    requires n <= |src|
    ensures |r| == n
  {
    var z := FirstNul(src, n, 0);
    src[..z] + Zeros(n - z)
  }

  lemma StrnText(s: string, src: string, n: nat)
    requires |s| <= n <= |src| && src[..|s|] == s && (forall c :: c in s ==> c != NUL)
    requires |s| < n ==> src[|s|] == NUL
    ensures Strn(src, n) == s + Zeros(n - |s|)
  {
    var z := FirstNul(src, n, 0);
    assert forall j :: 0 <= j < |s| ==> src[j] == s[j] && s[j] in s;
    assert z == |s|;
  }

  method Strncpy(dst: array<char>, at: nat, src: string, n: nat)
    requires at + n <= dst.Length && n <= |src|
    modifies dst
    ensures dst[..] == old(dst[..at]) + Strn(src, n) + old(dst[at + n..])
  {
    hide FirstNul, Zeros;
    var i := CopyText(dst, at, src, n);
    assert Strn(src, n) == src[..i] + Zeros(n - i);
    hide Strn;
    ghost var copied := dst[..];
    assert copied[..at] == old(dst[..at]) && copied[at..at + i] == src[..i] && copied[at + n..] == old(dst[at + n..]);
    ZeroFill(dst, at + i, at + n);
    ghost var filled := dst[..];
    assert filled[at + i..at + n] == Zeros(n - i) && filled[at + n..] == copied[at + n..];
    FilledBehind(copied, filled, at, at + i, at + n);
  }

  lemma FilledBehind<T>(s: seq<T>, t: seq<T>, i: nat, j: nat, k: nat)
    requires i <= j <= k <= |s| && k <= |t| && t[..j] == s[..j] && t[k..] == s[k..]
    ensures t == s[..i] + (s[i..j] + t[j..k]) + s[k..]
  {
    hide *;
    SamePart(t, s, i, j);
    InFour(t, i, j, k);
  }

  lemma SamePart<T>(s: seq<T>, t: seq<T>, i: nat, j: nat)
    requires i <= j <= |s| && j <= |t| && s[..j] == t[..j]
    ensures s[..i] == t[..i] && s[i..j] == t[i..j]
  {
    assert s[i..j] == s[..j][i..j];
    assert t[i..j] == t[..j][i..j];
    assert s[..i] == s[..j][..i];
    assert t[..i] == t[..j][..i];
  }

  lemma InFour<T>(s: seq<T>, i: nat, j: nat, k: nat)
    requires i <= j <= k <= |s|
    ensures s == s[..i] + (s[i..j] + s[j..k]) + s[k..]
  {
  }

  /** Copy up to the NUL or the end. */
  method CopyText(dst: array<char>, at: nat, src: string, n: nat) returns (i: nat)
    requires at + n <= dst.Length && n <= |src|
    modifies dst
    ensures i == FirstNul(src, n, 0) && dst[at..at + i] == src[..i]
    ensures dst[..at] == old(dst[..at]) && dst[at + n..] == old(dst[at + n..])
  {
    i := 0;
    while i < n && src[i] != NUL
      invariant i <= FirstNul(src, n, 0) && (i == n || src[i] == NUL ==> i == FirstNul(src, n, 0))
      invariant dst[..at] == old(dst[..at]) && dst[at..at + i] == src[..i] && dst[at + n..] == old(dst[at + n..])
    {
      dst[at + i] := src[i];
      i := i + 1;
    }
  }

  method ZeroFill(dst: array<char>, lo: nat, hi: nat)
    requires lo <= hi <= dst.Length
    modifies dst
    ensures dst[..lo] == old(dst[..lo]) && dst[lo..hi] == Zeros(hi - lo) && dst[hi..] == old(dst[hi..])
  {
    var i := lo;
    while i < hi
      invariant lo <= i <= hi
      invariant dst[..lo] == old(dst[..lo]) && dst[lo..i] == Zeros(i - lo) && dst[hi..] == old(dst[hi..])
    {
      dst[i] := NUL;
      i := i + 1;
    }
  }

  // ---------------------------------------------------------------- where the labels are

  /** Where label k starts in the text. */
  function Start(labels: seq<string>, k: nat): nat
    requires k <= |labels|
  {
    |Dotted(labels[..k])|
  }

  lemma {:induction false} DottedSplit(labels: seq<string>, k: nat)
    requires k <= |labels|
    ensures Dotted(labels) == Dotted(labels[..k]) + Dotted(labels[k..])
  {
    if k > 0 {
      DottedSplit(labels[1..], k - 1);
      assert labels[..k][1..] == labels[1..][..k - 1];
      assert labels[1..][k - 1..] == labels[k..];
    } else {
      assert labels[..0] == [] && labels[0..] == labels;
    }
  }

  lemma DottedNext(labels: seq<string>, k: nat)
    requires k < |labels|
    ensures Dotted(labels[..k + 1]) == Dotted(labels[..k]) + labels[k] + "."
    ensures Dotted(labels[k..]) == labels[k] + "." + Dotted(labels[k + 1..])
  {
    var ls := labels[..k + 1];
    DottedSplit(ls, k);
    assert ls[..k] == labels[..k] && ls[k..] == [labels[k]];
    assert Dotted([labels[k]][1..]) == "";
    assert labels[k..][1..] == labels[k + 1..];
  }

  lemma {:induction false} DottedJoin(labels: seq<string>)
    requires labels != []
    ensures Dotted(labels) == Join(labels) + "."
  {
    if |labels| == 1 {
      assert labels[1..] == [];
    } else {
      DottedJoin(labels[1..]);
    }
  }

  lemma {:induction false} DottedClean(labels: seq<string>)
    requires IsName(labels)
    ensures forall c :: c in Dotted(labels) ==> c != NUL
  {
    if labels != [] { DottedClean(labels[1..]); }
  }

  lemma JoinClean(labels: seq<string>)
    requires IsName(labels)
    ensures forall c :: c in Join(labels) ==> c != NUL
  {
    if labels != [] {
      DottedClean(labels);
      DottedJoin(labels);
      assert forall c :: c in Join(labels) ==> c in Dotted(labels);
    }
  }

  lemma JoinSplit(labels: seq<string>, k: nat)
    requires IsName(labels) && k < |labels|
    ensures Join(labels) == Dotted(labels[..k]) + Join(labels[k..])
  {
    DottedSplit(labels, k);
    DottedJoin(labels);
    DottedJoin(labels[k..]);
    var a, t := Dotted(labels[..k]), Join(labels);
    hide Dotted, Join;
    assert t + "." == a + Join(labels[k..]) + ".";
    assert t == (t + ".")[..|t|] == a + Join(labels[k..]);
  }

  lemma LabelText(labels: seq<string>, k: nat)
    requires IsName(labels) && k < |labels|
    ensures labels[k] <= Join(labels[k..]) && forall j :: 0 <= j < |labels[k]| ==> labels[k][j] != '.'
  {
    forall j | 0 <= j < |labels[k]| ensures labels[k][j] != '.' {
      assert labels[k][j] in labels[k];
    }
  }

  /** The text from label k on is the name of the labels from k on; there is a dot right before it, and none
      inside the label. */
  lemma SuffixAt(labels: seq<string>, k: nat)
    requires IsName(labels) && k < |labels|
    ensures Start(labels, k) + |Join(labels[k..])| == |Join(labels)|
    ensures Join(labels)[Start(labels, k)..] == Join(labels[k..])
    ensures k > 0 ==> 0 < Start(labels, k) && Join(labels)[Start(labels, k) - 1] == '.'
    ensures Start(labels, k + 1) == Start(labels, k) + |labels[k]| + 1
    ensures Start(labels, k + 1) - 1 <= |Join(labels)|
    ensures forall i :: Start(labels, k) <= i < Start(labels, k + 1) - 1 ==> Join(labels)[i] != '.'
  {
    JoinSplit(labels, k);
    DottedNext(labels, k);
    LabelText(labels, k);
    if k > 0 {
      DottedNext(labels, k - 1);
    }
    hide Join, Dotted, IsName;
    var at, t, rest := Start(labels, k), Join(labels), Join(labels[k..]);
    forall i | at <= i < at + |labels[k]| ensures t[i] != '.' {
      assert t[i] == rest[i - at] == labels[k][i - at];
    }
  }

  /** The scan position i is in label k - 1 or on the dot before it, or still on the terminator. */
  ghost predicate InLabel(labels: seq<string>, k: nat, i: int) {
    && 0 < k <= |labels| && Start(labels, k - 1) - 1 <= i < Start(labels, k)
    && (i == Start(labels, k) - 1 ==> k == |labels|)
  }

  lemma ScanStart(labels: seq<string>, total: nat)
    requires IsName(labels) && labels != [] && total == |Join(labels)| + 1
    ensures InLabel(labels, |labels|, total - 1)
  {
    LastLabel(labels);
    SuffixAt(labels, |labels| - 1);
  }

  lemma ShorterSuffix(labels: seq<string>, k: nat)
    requires IsName(labels) && 0 < k < |labels|
    ensures |Join(labels[k..])| <= |Join(labels[k - 1..])|
  {
    hide Join, Start, Dotted, IsName;
    SuffixAt(labels, k - 1);
    SuffixAt(labels, k);
  }

  lemma StartFirst(labels: seq<string>)
    ensures Start(labels, 0) == 0
  {
    assert labels[..0] == [];
  }

  /** The dot before label k - 1. */
  lemma ScanDot(labels: seq<string>, k: nat, i: nat)
    requires IsName(labels) && 0 < k <= |labels| && i + 1 == Start(labels, k - 1)
    ensures k >= 2 && i < |Join(labels)| && Join(labels)[i] == '.'
    ensures Join(labels)[i + 1..] == Join(labels[k - 1..]) && InLabel(labels, k - 1, i - 1)
  {
    StartFirst(labels);
    hide Join, Start, Dotted, IsName;
    SuffixAt(labels, k - 1);
    SuffixAt(labels, k - 2);
  }

  lemma ScanInside(labels: seq<string>, k: nat, i: nat)
    requires IsName(labels) && 0 < k <= |labels| && Start(labels, k - 1) <= i < Start(labels, k) - 1
    ensures i < |Join(labels)| && Join(labels)[i] != '.' && InLabel(labels, k, i - 1)
  {
    hide Join, Start, Dotted, IsName;
    SuffixAt(labels, k - 1);
  }

  lemma ScanMark(labels: seq<string>)
    requires IsName(labels) && labels != []
    ensures Start(labels, |labels|) == |Join(labels)| + 1 && Start(labels, |labels| - 1) <= |Join(labels)|
  {
    LastLabel(labels);
    hide Join, Start, Dotted, IsName;
    SuffixAt(labels, |labels| - 1);
  }

  lemma TextIs(t: string, i: nat)
    requires i <= |t|
    ensures (t + [NUL])[i] == (if i < |t| then t[i] else NUL)
    ensures i < |t| ==> (t + [NUL])[i + 1..] == t[i + 1..] + [NUL]
  {
  }

  /** Going back over the text, a dot is met exactly where a suffix of labels starts behind it. */
  lemma ScanStep(labels: seq<string>, text: string, k: nat, i: int)
    requires IsName(labels) && text == Join(labels) + [NUL] && InLabel(labels, k, i) && i >= 0
    ensures i < |text| && (text[i] == '.' <==> i + 1 == Start(labels, k - 1))
    ensures text[i] == '.' ==> text[i + 1..] == Join(labels[k - 1..]) + [NUL] && InLabel(labels, k - 1, i - 1)
    ensures text[i] != '.' ==> InLabel(labels, k, i - 1)
    ensures k < |labels| ==> |Join(labels[k..])| <= |Join(labels[k - 1..])|
  {
    hide Join, Start, Dotted, IsName;
    if k < |labels| {
      ShorterSuffix(labels, k);
    }
    if i + 1 == Start(labels, k - 1) {
      ScanDot(labels, k, i);
    } else if i + 1 == Start(labels, k) {
      ScanMark(labels);
    } else {
      ScanInside(labels, k, i);
    }
    TextIs(Join(labels), i);
  }

  lemma LastLabel(labels: seq<string>)
    requires IsName(labels) && labels != []
    ensures Start(labels, |labels|) == |Join(labels)| + 1
  {
    assert labels[..|labels|] == labels;
    DottedJoin(labels);
  }

  lemma ScanEnd(labels: seq<string>, k: nat)
    requires IsName(labels) && InLabel(labels, k, -1)
    ensures k == 1 && Start(labels, 0) == 0 && Join(labels[0..]) == Join(labels)
    ensures 1 < |labels| ==> |Join(labels[1..])| <= |Join(labels)|
  {
    assert labels[0..] == labels && labels[..0] == [];
    if k > 1 { SuffixAt(labels, k - 1); }
    if 1 < |labels| { SuffixAt(labels, 1); }
  }

  // ---------------------------------------------------------------- flattening

  /** The cursor stands at label k of the packet, and the labels before it are in the text. */
  ghost predicate AtLabel(labels: seq<string>, data: string, rest: string, at: nat, k: nat, total: nat)
    requires IsName(labels)
  {
    && k <= |labels| && at < |data| && data[at..] == QName(labels[k..]) + rest
    && (data[at] == NUL <==> k == |labels|)
    && total == Start(labels, k)
  }

  lemma FlattenStart(labels: seq<string>, data: string, rest: string)
    requires IsName(labels) && data == QName(labels) + rest
    ensures AtLabel(labels, data, rest, 0, 0, 0) && Dotted(labels[..0]) == ""
  {
    assert labels[0..] == labels && data[0..] == data && labels[..0] == [];
  }

  /** One label: where its bytes are, whether it still fits, and what comes behind it. */
  lemma FlattenStep(labels: seq<string>, data: string, rest: string, at: nat, k: nat, total: nat)
    requires IsName(labels) && AtLabel(labels, data, rest, at, k, total) && k < |labels|
    ensures var l := labels[k];
            && IsLabel(l) && data[at] as int == |l| <= |data[at + 1..]| && data[at + 1..][..|l|] == l
            && AtLabel(labels, data, rest, at + 1 + |l|, k + 1, total + |l| + 1)
            && at + 1 + |l| < |data| && (data[at + 1 + |l|] == NUL <==> k + 1 == |labels|)
            && Dotted(labels[..k + 1]) == Dotted(labels[..k]) + l + "."
  {
    var l, next := labels[k], labels[k + 1..];
    assert labels[k..][1..] == next && IsLabel(l) && (next != [] ==> IsLabel(next[0]));
    assert next == [] <==> k + 1 == |labels|;
    var rest' := QName(next) + rest;
    assert QName(labels[k..]) + rest == [|l| as char] + l + rest';
    assert rest' != [] && (rest'[0] == NUL <==> next == []);
    hide QName, IsLabel;
    Sliced(data, at, |l| as char, l, rest');
    DottedNext(labels, k);
  }

  lemma Sliced(data: string, at: nat, c: char, l: string, rest: string)
    requires at <= |data| && data[at..] == [c] + l + rest && rest != []
    ensures data[at] == c && |l| <= |data[at + 1..]| && data[at + 1..][..|l|] == l
    ensures at + 1 + |l| < |data| && data[at + 1 + |l|..] == rest && data[at + 1 + |l|] == rest[0]
  {
    var d := data[at..];
    assert d[0] == data[at] && data[at + 1..] == d[1..] == l + rest;
    assert data[at + 1 + |l|..] == d[1 + |l|..] == rest;
  }

  lemma FitsWithin(labels: seq<string>, k: nat)
    requires IsName(labels) && k < |labels|
    ensures Start(labels, k) + |labels[k]| <= |Join(labels)|
    ensures Start(labels, k + 1) == Start(labels, k) + |labels[k]| + 1
  {
    SuffixAt(labels, k);
  }

  lemma FlattenEnd(labels: seq<string>, data: string, rest: string, at: nat, total: nat)
    requires IsName(labels) && labels != [] && AtLabel(labels, data, rest, at, |labels|, total)
    ensures total == |Join(labels)| + 1 && Dotted(labels[..|labels|]) == Join(labels) + "."
  {
    assert labels[..|labels|] == labels;
    DottedJoin(labels);
  }

  /** Copy one label behind the text so far, with its dot. */
  method AppendLabel(name: array<char>, total0: nat, src: string, n: nat, ghost before: string, ghost l: string)
    returns (total: nat)
    requires name.Length == DSET_MAX_DOMAIN_LEN && total0 + n < DSET_MAX_DOMAIN_LEN && name[..total0] == before
    requires IsLabel(l) && |l| == n <= |src| && src[..n] == l
    modifies name
    ensures total == total0 + n + 1 && name[..total] == before + l + "."
  {
    StrnText(l, src, n);
    assert l + Zeros(0) == l;
    Strncpy(name, total0, src, n);
    total := total0 + n;
    assert name[..total] == before + l;
    name[total] := '.';
    total := total + 1;
    assert name[..total] == name[..total - 1] + ".";
  }

  /** Write the QNAME in data as dotted text into name. It does not fit exactly when text and terminator need more
      than the buffer. */
  method Flatten(data: string, name: array<char>, ghost labels: seq<string>, ghost rest: string)
    returns (fits: bool, total: nat)
    requires IsName(labels) && labels != [] && data == QName(labels) + rest && name.Length == DSET_MAX_DOMAIN_LEN
    modifies name
    ensures fits <==> |Join(labels)| + 1 <= DSET_MAX_DOMAIN_LEN
    ensures fits ==> total == |Join(labels)| + 1 && name[..total] == Join(labels) + [NUL]
  {
    hide *;
    var at: nat := 0;
    ghost var k := 0;
    total := 0;
    FlattenStart(labels, data, rest);
    while data[at] != NUL
      invariant AtLabel(labels, data, rest, at, k, total)
      invariant k <= |labels| && total == Start(labels, k) && at < |data| && (data[at] == NUL <==> k == |labels|)
      invariant total <= DSET_MAX_DOMAIN_LEN && name[..total] == Dotted(labels[..k])
      decreases |labels| - k
    {
      var labelLength := data[at] as nat;
      FlattenStep(labels, data, rest, at, k, total);
      FitsWithin(labels, k);
      if total + labelLength >= DSET_MAX_DOMAIN_LEN {
        return false, total;
      }
      at := at + 1;
      total := AppendLabel(name, total, data[at..], labelLength, Dotted(labels[..k]), labels[k]);
      at := at + labelLength;
      k := k + 1;
    }
    FlattenEnd(labels, data, rest, at, total);
    assert name[..total - 1] == name[..total][..total - 1] == Join(labels);
    name[total - 1] := NUL;
    fits := true;
  }

  // ---------------------------------------------------------------- matching

  /** The name of the labels from k on is a member that matches. Each probe reads the clock for itself; clock tells
      what it reads at the probe of the text from a position on. */
  ghost predicate Hits(f: Features, m: Entries, labels: seq<string>, fl: TestFlags, clock: nat -> Tick, k: nat)
    requires k <= |labels|
  {
    var d := Join(labels[k..]);
    d in m && Matches(f, m[d], fl, clock(Start(labels, k)))
  }

  /** Put a suffix into the element buffer, over a shorter one. */
  method SetElement(e: array<char>, src: string, n: nat, ghost s: string, ghost before: string)
    requires e.Length == DSET_MAX_DOMAIN_LEN && |before| < DSET_MAX_DOMAIN_LEN && e[..] == Padded(before)
    requires |before| <= |s| == n - 1 < DSET_MAX_DOMAIN_LEN && n <= |src| && src[..n] == s + [NUL]
    requires forall c :: c in s ==> c != NUL
    modifies e
    ensures e[..] == Padded(s) && Text(e[..]) == s
  {
    assert src[..|s|] == s && src[|s|] == src[..n][|s|];
    StrnText(s, src, n);
    Strncpy(e, 0, src, n);
    TextPadded(s);
  }

  /** Test the names of the labels from each k on, shortest first, each in the one element buffer at its own moment.
      The answer is yes exactly when one of them is a matching member, and only the shortest of those is touched. */
  method TestSuffixes(dset: DomainSet, name: array<char>, total: nat, ghost labels: seq<string>, ext: Ext,
                      fl: TestFlags,
                      clock: nat -> Tick) returns (ret: bool)
    requires dset.Valid() && IsName(labels) && labels != [] && name.Length == DSET_MAX_DOMAIN_LEN
    requires total == |Join(labels)| + 1 <= DSET_MAX_DOMAIN_LEN && name[..total] == Join(labels) + [NUL]
    modifies dset`stored, dset.table`rows, dset.table.chain
    ensures dset.Valid()
    ensures !ret ==> dset.stored == old(dset.stored)
    ensures !ret ==> forall k :: 0 <= k < |labels| ==> !Hits(dset.feat, old(dset.stored), labels, fl, clock, k)
    ensures ret ==> ShortestTouched(dset.feat, old(dset.stored), dset.stored, labels, ext, fl, clock)
  {
    hide *;
    var e := new char[DSET_MAX_DOMAIN_LEN](_ => NUL);
    ghost var k := |labels|;
    ghost var m0, text := dset.stored, name[..total];
    ScanStart(labels, total);
    NoneTried(dset.feat, m0, labels, fl, clock, e[..]);
    var i := total as int - 1;
    while i >= 0
      invariant dset.Valid() && dset.stored == m0 && dset.table == old(dset.table) &&
          dset.table.chain == old(dset.table.chain)
      invariant name[..total] == text && 0 < k <= |labels| && InLabel(labels, k, i)
      invariant Tried(dset.feat, m0, labels, fl, clock, k, e[..])
      decreases i
    {
      ScanStep(labels, text, k, i);
      assert name[i] == text[i] && name[i + 1..total] == text[i + 1..];
      if name[i] == '.' {
        k := k - 1;
        ret := Probe(dset, e, name, i + 1, total, labels, k, ext, fl, clock);
        if ret {
          return;
        }
      }
      i := i - 1;
    }
    ScanEnd(labels, k);
    ret := Probe(dset, e, name, 0, total, labels, 0, ext, fl, clock);
    if !ret {
      NoneHits(dset.feat, m0, labels, fl, clock, e[..]);
    }
  }

  /** One probe: the name of the labels from k on, which is the text from position at. */
  method Probe(dset: DomainSet, e: array<char>, name: array<char>, at: nat, total: nat, ghost labels: seq<string>,
               ghost k: nat,
               ext: Ext, fl: TestFlags, clock: nat -> Tick) returns (ret: bool)
    requires dset.Valid() && e != name && e.Length == name.Length == DSET_MAX_DOMAIN_LEN
    requires at < total <= DSET_MAX_DOMAIN_LEN && IsName(labels) && k < |labels| && at == Start(labels, k)
    requires name[at..total] == Join(labels[k..]) + [NUL]
    requires Tried(dset.feat, dset.stored, labels, fl, clock, k + 1, e[..])
    modifies e, dset`stored, dset.table`rows, dset.table.chain
    ensures dset.Valid()
    ensures !ret ==> dset.stored == old(dset.stored) && Tried(dset.feat, old(dset.stored), labels, fl, clock, k, e[..])
    ensures ret ==> ShortestTouched(dset.feat, old(dset.stored), dset.stored, labels, ext, fl, clock)
  {
    hide *;
    ghost var m, before := dset.stored, e[..];
    NextSuffix(dset.feat, m, labels, fl, clock, k, before);
    SetElement(e, name[at..], total - at, Join(labels[k..]), SuffixText(labels, k + 1));
    ret := dset.Test(Text(e[..]), ext, fl, clock(at));
    Probed(dset.feat, m, dset.stored, labels, ext, fl, clock, k, before, e[..], ret);
  }

  ghost function SuffixText(labels: seq<string>, k: nat): string
    requires k <= |labels|
  {
    if k == |labels| then "" else Join(labels[k..])
  }

  /** The suffixes from k on have missed, and the last of them is in the buffer. */
  ghost predicate Tried(f: Features, m: Entries, labels: seq<string>, fl: TestFlags, clock: nat -> Tick, k: nat,
                        buf: string) {
    && k <= |labels| && |SuffixText(labels, k)| < DSET_MAX_DOMAIN_LEN && buf == Padded(SuffixText(labels, k))
    && forall j :: k <= j < |labels| ==> !Hits(f, m, labels, fl, clock, j)
  }

  lemma NoneTried(f: Features, m: Entries, labels: seq<string>, fl: TestFlags, clock: nat -> Tick, buf: string)
    requires |buf| == DSET_MAX_DOMAIN_LEN && forall i :: 0 <= i < |buf| ==> buf[i] == NUL
    ensures Tried(f, m, labels, fl, clock, |labels|, buf)
  {
  }

  /** The next suffix is longer than the text in the buffer, and without a terminator of its own. */
  lemma NextSuffix(f: Features, m: Entries, labels: seq<string>, fl: TestFlags, clock: nat -> Tick, k: nat, buf: string)
    requires IsName(labels) && k < |labels| && Tried(f, m, labels, fl, clock, k + 1, buf)
    ensures |SuffixText(labels, k + 1)| < DSET_MAX_DOMAIN_LEN && buf == Padded(SuffixText(labels, k + 1))
    ensures |SuffixText(labels, k + 1)| <= |Join(labels[k..])| && SuffixText(labels, k) == Join(labels[k..])
    ensures forall c :: c in Join(labels[k..]) ==> c != NUL
  {
    JoinClean(labels[k..]);
    SuffixAt(labels, k);
    if k + 1 < |labels| { SuffixAt(labels, k + 1); }
  }

  /** What the answer to probe k means for all the probes so far. */
  lemma Probed(f: Features, m: Entries, m': Entries, labels: seq<string>, ext: Ext, fl: TestFlags, clock: nat -> Tick,
               k: nat,
               before: string, buf: string, hit: bool)
    requires k < |labels| && Tried(f, m, labels, fl, clock, k + 1, before)
    requires |Join(labels[k..])| < DSET_MAX_DOMAIN_LEN && buf == Padded(Join(labels[k..]))
    requires hit <==> Join(labels[k..]) in m && Matches(f, m[Join(labels[k..])], fl, clock(Start(labels, k)))
    requires m' == if hit then m[Join(labels[k..]) := Bumped(f, m[Join(labels[k..])], ext, fl)] else m
    ensures !hit ==> m' == m && Tried(f, m, labels, fl, clock, k, buf)
    ensures hit ==> ShortestTouched(f, m, m', labels, ext, fl, clock)
  {
    assert hit ==> Touched(f, m, m', labels, ext, fl, clock, k);
  }

  lemma NoneHits(f: Features, m: Entries, labels: seq<string>, fl: TestFlags, clock: nat -> Tick, buf: string)
    requires Tried(f, m, labels, fl, clock, 0, buf)
    ensures forall j :: 0 <= j < |labels| ==> !Hits(f, m, labels, fl, clock, j)
  {
  }

  ghost predicate ShortestTouched(f: Features, m: Entries, m': Entries, labels: seq<string>, ext: Ext, fl: TestFlags,
                                  clock: nat -> Tick) {
    exists k :: 0 <= k < |labels| && Touched(f, m, m', labels, ext, fl, clock, k)
  }

  /** Suffix k is the shortest that hits, and its counters are all that changes. */
  ghost predicate Touched(f: Features, m: Entries, m': Entries, labels: seq<string>, ext: Ext, fl: TestFlags,
                          clock: nat -> Tick, k: nat)
    requires k < |labels|
  {
    var d := Join(labels[k..]);
    && Hits(f, m, labels, fl, clock, k)
    && (forall j :: k < j < |labels| ==> !Hits(f, m, labels, fl, clock, j))
    && m' == m[d := Bumped(f, m[d], ext, fl)]
  }

  /** Does a packet's name match the set? No name that needs more than the buffer does. A match touches the shortest
      matching suffix and nothing else. */
  method TestPacket(dset: DomainSet, data: string, ghost labels: seq<string>, ghost rest: string, ext: Ext,
                    fl: TestFlags,
                    clock: nat -> Tick) returns (ret: bool)
    requires dset.Valid() && IsName(labels) && labels != [] && data == QName(labels) + rest
    modifies dset`stored, dset.table`rows, dset.table.chain
    ensures dset.Valid()
    ensures ret <==> |Join(labels)| + 1 <= DSET_MAX_DOMAIN_LEN
                     && exists k :: 0 <= k < |labels| && Hits(dset.feat, old(dset.stored), labels, fl, clock, k)
    ensures !ret ==> dset.stored == old(dset.stored)
    ensures ret ==> ShortestTouched(dset.feat, old(dset.stored), dset.stored, labels, ext, fl, clock)
  {
    hide *;
    ghost var m := dset.stored;
    var name := new char[DSET_MAX_DOMAIN_LEN](_ => NUL);
    var fits, total := Flatten(data, name, labels, rest);
    if !fits {
      return false;
    }
    ret := TestSuffixes(dset, name, total, labels, ext, fl, clock);
    if ret {
      SomeHits(dset.feat, m, dset.stored, labels, ext, fl, clock);
    }
  }

  lemma SomeHits(f: Features, m: Entries, m': Entries, labels: seq<string>, ext: Ext, fl: TestFlags, clock: nat -> Tick)
    requires ShortestTouched(f, m, m', labels, ext, fl, clock)
    ensures exists k :: 0 <= k < |labels| && Hits(f, m, labels, fl, clock, k)
  {
    var k :| 0 <= k < |labels| && Touched(f, m, m', labels, ext, fl, clock, k);
    assert Hits(f, m, labels, fl, clock, k);
  }

  /** The element an add or a delete from a packet uses: the whole name. */
  method PacketElement(data: string, ghost labels: seq<string>, ghost rest: string) returns (fits: bool, e: array<char>)
    requires IsName(labels) && labels != [] && data == QName(labels) + rest
    ensures fits <==> |Join(labels)| + 1 <= DSET_MAX_DOMAIN_LEN
    ensures fits ==> e[..] == Padded(Join(labels)) && Text(e[..]) == Join(labels)
  {
    hide *;
    e := new char[DSET_MAX_DOMAIN_LEN](_ => NUL);
    var name := new char[DSET_MAX_DOMAIN_LEN](_ => NUL);
    var total;
    fits, total := Flatten(data, name, labels, rest);
    if fits {
      WholeName(name[..], total, Join(labels), labels);
      Strncpy(e, 0, name[..], DSET_MAX_DOMAIN_LEN);
    }
  }

  lemma WholeName(buf: string, total: nat, s: string, labels: seq<string>)
    requires IsName(labels) && s == Join(labels) && total == |s| + 1 <= DSET_MAX_DOMAIN_LEN == |buf| &&
             buf[..total] == s + [NUL]
    ensures Strn(buf, DSET_MAX_DOMAIN_LEN) == Padded(s) && Text(Padded(s)) == s
  {
    JoinClean(labels);
    assert buf[|s|] == buf[..total][|s|] && buf[..|s|] == buf[..total][..|s|];
    StrnText(s, buf, DSET_MAX_DOMAIN_LEN);
    TextPadded(s);
  }

  // ---------------------------------------------------------------- which names match a member

  /** The dotted text of a name determines its labels. */
  lemma {:induction false} DottedInjective(a: seq<string>, b: seq<string>)
    requires IsName(a) && IsName(b) && Dotted(a) == Dotted(b)
    ensures a == b
  {
    if a != [] && b != [] {
      var t := Dotted(a);
      assert t == a[0] + "." + Dotted(a[1..]) == b[0] + "." + Dotted(b[1..]);
      assert t[|a[0]|] == '.' && t[|b[0]|] == '.';
      assert forall i :: 0 <= i < |a[0]| ==> t[i] == a[0][i] && a[0][i] in a[0];
      assert forall i :: 0 <= i < |b[0]| ==> t[i] == b[0][i] && b[0][i] in b[0];
      assert |a[0]| == |b[0]|;
      assert a[0] == t[..|a[0]|] == b[0];
      assert Dotted(a[1..]) == t[|a[0]| + 1..] == Dotted(b[1..]);
      DottedInjective(a[1..], b[1..]);
      assert a == [a[0]] + a[1..] && b == [b[0]] + b[1..];
    }
  }

  predicate EndsIn(labels: seq<string>, ms: seq<string>) {
    |ms| <= |labels| && labels[|labels| - |ms|..] == ms
  }

  /** In a set of names, a query matches exactly when its labels end in the labels of a member that matches (that is
      unexpired, if counters are not looked at): matching is by whole labels, never inside one. */
  lemma MatchesByLabels(f: Features, m: Entries, names: set<seq<string>>, labels: seq<string>, fl: TestFlags,
                        clock: nat -> Tick)
    requires IsName(labels) && forall ms :: ms in names ==> IsName(ms) && ms != []
    requires m.Keys == set ms | ms in names :: Join(ms)
    ensures (exists k :: 0 <= k < |labels| && Hits(f, m, labels, fl, clock, k)) <==>
            exists ms :: ms in names && EndsIn(labels, ms)
              && Matches(f, m[Join(ms)], fl, clock(Start(labels, |labels| - |ms|)))
    ensures !fl.matchCounters ==> forall s, now :: Matches(f, s, fl, now) <==> !Dead(f, s, now)
  {
    forall ms | ms in names && EndsIn(labels, ms)
                && Matches(f, m[Join(ms)], fl, clock(Start(labels, |labels| - |ms|)))
      ensures Hits(f, m, labels, fl, clock, |labels| - |ms|)
    {
    }
    forall k | 0 <= k < |labels| && Hits(f, m, labels, fl, clock, k)
      ensures labels[k..] in names && EndsIn(labels, labels[k..])
    {
      assert Join(labels[k..]) in m.Keys;
      var ms :| ms in names && Join(ms) == Join(labels[k..]);
      DottedJoin(labels[k..]);
      DottedJoin(ms);
      DottedInjective(labels[k..], ms);
    }
  }
}
