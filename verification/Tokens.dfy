/** Splitting a line of a restore stream into arguments. */
module Tokens {

  const MAX_ARGS: nat := 32

  datatype Result = Ok(argv: seq<string>) | TooLong | MissingQuote

  predicate IsSpace(c: char) {
    c == ' ' || c == '\r' || c == '\n' || c == '\t'
  }

  /** The arguments with a finished one put behind them, unless it is empty. */
  function Pushed(argv: seq<string>, arg: string): seq<string> {
    if arg == "" then argv else argv + [arg]
  }

  /** The rest s of the line, read behind the arguments argv and the characters arg of the current one. The name of
      the program is argument 0, and one slot stays free. */
  function Scan(s: string, quoted: bool, arg: string, argv: seq<string>): Result {
    if s == "" then Ok(argv)
    else if |argv| + 2 == MAX_ARGS then TooLong
    else if s[0] == '"' then
      if |s| > 1 then Scan(s[1..], !quoted, arg, argv) else if !quoted then MissingQuote else Ok(Pushed(argv, arg))
    else if IsSpace(s[0]) then
      if quoted then Scan(s[1..], true, arg + [s[0]], argv) else Scan(s[1..], false, "", Pushed(argv, arg))
    else
      if |s| > 1 then Scan(s[1..], quoted, arg + [s[0]], argv)
      else if quoted then MissingQuote else Ok(argv + [arg + [s[0]]])
  }

  method BuildArgv(buffer: string) returns (r: Result)
    ensures r == Scan(buffer, false, "", [])
  {
    var argv, arg, quoted := [], "", false;
    var tmp := 0;
    assert buffer[0..] == buffer;
    while tmp < |buffer|
      invariant tmp <= |buffer| && Scan(buffer[tmp..], quoted, arg, argv) == Scan(buffer, false, "", [])
    {
      ghost var rest := buffer[tmp..];
      assert rest[0] == buffer[tmp] && rest[1..] == buffer[tmp + 1..];
      if |argv| + 2 == MAX_ARGS {
        return TooLong;
      }
      var c := buffer[tmp];
      var more := tmp + 1 < |buffer|;
      if c == '"' {
        quoted := !quoted;
        if more {
          tmp := tmp + 1;
          continue;
        }
      } else if IsSpace(c) {
        if quoted {
          arg := arg + [c];
          tmp := tmp + 1;
          continue;
        }
      } else {
        arg := arg + [c];
        if more {
          tmp := tmp + 1;
          continue;
        }
      }
      if !more && quoted {
        return MissingQuote;
      }
      if arg != "" {
        argv := argv + [arg];
        arg := "";
      }
      tmp := tmp + 1;
    }
    return Ok(argv);
  }

  /** The arguments of an accepted line are never empty, and leave a slot free behind the name of the program. */
  lemma {:induction false} NoEmptyArgument(s: string, quoted: bool, arg: string, argv: seq<string>)
    requires "" !in argv && |argv| + 2 <= MAX_ARGS
    ensures var r := Scan(s, quoted, arg, argv); r.Ok? ==> argv <= r.argv && "" !in r.argv && |r.argv| + 2 <= MAX_ARGS
    decreases |s|
  {
    if s != "" && |argv| + 2 != MAX_ARGS {
      if s[0] == '"' {
        NoEmptyArgument(s[1..], !quoted, arg, argv);
      } else if IsSpace(s[0]) && !quoted {
        NoEmptyArgument(s[1..], false, "", Pushed(argv, arg));
      } else {
        NoEmptyArgument(s[1..], quoted, arg + [s[0]], argv);
      }
    }
  }

  // ---------------------------------------------------------------- written lines are read back

  /** A piece of an argument as it is written: in quotes, or bare if it has no white space. */
  datatype Piece = Piece(text: string, quoted: bool)

  predicate Writable(p: Piece) {
    '"' !in p.text && (!p.quoted ==> forall c :: c in p.text ==> !IsSpace(c))
  }

  function WrittenPiece(p: Piece): string {
    if p.quoted then "\"" + p.text + "\"" else p.text
  }

  function Written(ps: seq<Piece>): string {
    if ps == [] then "" else WrittenPiece(ps[0]) + Written(ps[1..])
  }

  function TextOf(ps: seq<Piece>): string {
    if ps == [] then "" else ps[0].text + TextOf(ps[1..])
  }

  /** White space: blank, carriage return, newline or tab. */
  predicate Gap(g: string) {
    forall c :: c in g ==> c == ' ' || c == '\r' || c == '\n' || c == '\t'
  }

  /** An argument, or nothing if its pieces are all empty, and the white space behind it. */
  datatype Item = Item(pieces: seq<Piece>, gap: string)

  predicate ItemOk(it: Item) {
    (forall i :: 0 <= i < |it.pieces| ==> Writable(it.pieces[i])) && Gap(it.gap) && it.gap != ""
  }

  predicate ItemsOk(items: seq<Item>) {
    forall i :: 0 <= i < |items| ==> ItemOk(items[i])
  }

  function Line(items: seq<Item>): string {
    if items == [] then "" else Written(items[0].pieces) + (items[0].gap + Line(items[1..]))
  }

  function TextsOf(items: seq<Item>): seq<string> {
    if items == [] then []
    else (if TextOf(items[0].pieces) == "" then [] else [TextOf(items[0].pieces)]) + TextsOf(items[1..])
  }

  /** Characters that only add to the current argument. */
  lemma {:induction false} ScanText(w: string, t: string, quoted: bool, arg: string, argv: seq<string>)
    requires '"' !in w && (quoted || forall c :: c in w ==> !IsSpace(c)) && t != "" && |argv| + 2 != MAX_ARGS
    ensures Scan(w + t, quoted, arg, argv) == Scan(t, quoted, arg + w, argv)
    decreases |w|
  {
    if w == "" {
      assert w + t == t && arg + w == arg;
    } else {
      var s := w + t;
      assert s[0] == w[0] && w[0] in w && s[1..] == w[1..] + t;
      assert arg + [w[0]] + w[1..] == arg + w;
      ScanText(w[1..], t, quoted, arg + [w[0]], argv);
    }
  }

  lemma ScanPiece(p: Piece, t: string, arg: string, argv: seq<string>)
    requires Writable(p) && t != "" && |argv| + 2 != MAX_ARGS
    ensures Scan(WrittenPiece(p) + t, false, arg, argv) == Scan(t, false, arg + p.text, argv)
  {
    if p.quoted {
      var end := "\"" + t;
      var s := WrittenPiece(p) + t;
      assert s[0] == '"' && s[1..] == p.text + end;
      ScanText(p.text, end, true, arg, argv);
      assert end[1..] == t;
    } else {
      ScanText(p.text, t, false, arg, argv);
    }
  }

  lemma {:induction false} ScanPieces(ps: seq<Piece>, t: string, arg: string, argv: seq<string>)
    requires (forall i :: 0 <= i < |ps| ==> Writable(ps[i])) && t != "" && |argv| + 2 != MAX_ARGS
    ensures Scan(Written(ps) + t, false, arg, argv) == Scan(t, false, arg + TextOf(ps), argv)
    decreases |ps|
  {
    hide Scan, Writable, WrittenPiece;
    if ps == [] {
      assert "" + t == t && arg + "" == arg;
    } else {
      var rest := Written(ps[1..]) + t;
      assert Written(ps) + t == WrittenPiece(ps[0]) + rest;
      ScanPiece(ps[0], rest, arg, argv);
      ScanPieces(ps[1..], t, arg + ps[0].text, argv);
      assert arg + ps[0].text + TextOf(ps[1..]) == arg + TextOf(ps);
    }
  }

  lemma GapTail(g: string)
    requires Gap(g) && g != ""
    ensures Gap(g[1..])
  {
    assert forall c :: c in g[1..] ==> c in g;
  }

  /** White space between arguments is skipped, however much there is. */
  lemma {:induction false} ScanGap(g: string, t: string, argv: seq<string>)
    requires Gap(g) && |argv| + 2 != MAX_ARGS
    ensures Scan(g + t, false, "", argv) == Scan(t, false, "", argv)
    decreases |g|
  {
    if g == "" {
      assert g + t == t;
    } else {
      assert (g + t)[0] == g[0] && g[0] in g && (g + t)[1..] == g[1..] + t;
      GapTail(g);
      ScanGap(g[1..], t, argv);
    }
  }

  /** The first character of it ends an argument. */
  lemma ScanSeparator(g: string, t: string, arg: string, argv: seq<string>)
    requires Gap(g) && g != "" && |argv| + 2 != MAX_ARGS
    ensures Scan(g + t, false, arg, argv) == Scan(g[1..] + t, false, "", Pushed(argv, arg))
  {
    assert (g + t)[0] == g[0] && g[0] in g && (g + t)[1..] == g[1..] + t;
  }

  lemma ScanTooLong(s: string, argv: seq<string>)
    requires s != "" && |argv| + 2 == MAX_ARGS
    ensures Scan(s, false, "", argv) == TooLong
  {
  }

  lemma LineUnfold(items: seq<Item>)
    ensures Line([]) == "" && TextsOf([]) == []
    ensures items != [] ==>
              && Line(items) == Written(items[0].pieces) + (items[0].gap + Line(items[1..]))
              && TextsOf(items) == Pushed([], TextOf(items[0].pieces)) + TextsOf(items[1..])
  {
    hide Written, TextOf;
  }

  lemma {:induction false} NoTexts(items: seq<Item>)
    requires TextsOf(items) == [] && items != []
    ensures TextOf(items[|items| - 1].pieces) == ""
    decreases |items|
  {
    if |items| > 1 {
      NoTexts(items[1..]);
    }
  }

  /** The arguments fit behind n: there is a slot left, or they end with one white space character behind the last. */
  predicate Fits(items: seq<Item>, n: nat) {
    || n + |TextsOf(items)| + 2 < MAX_ARGS
    || (n + |TextsOf(items)| + 2 == MAX_ARGS
        && (items == [] || (var last := items[|items| - 1]; TextOf(last.pieces) != "" && |last.gap| == 1)))
  }

  lemma FitsNext(items: seq<Item>, n: nat)
    requires items != [] && n + 2 < MAX_ARGS
    ensures var n' := n + |Pushed([], TextOf(items[0].pieces))|;
            Fits(items, n) <==> Fits(items[1..], n') && (n' + 2 == MAX_ARGS ==> |items[0].gap| == 1)
  {
    LineUnfold(items);
    var rest := items[1..];
    if rest != [] && TextsOf(rest) == [] {
      NoTexts(rest);
    }
    hide TextOf, TextsOf;
  }

  lemma FitsFull(items: seq<Item>, n: nat)
    requires n + 2 == MAX_ARGS
    ensures Fits(items, n) <==> items == []
  {
    LineUnfold(items);
    if items != [] && TextsOf(items) == [] {
      NoTexts(items);
    }
    hide TextOf, TextsOf;
  }

  lemma {:induction false} ScanLine(items: seq<Item>, argv: seq<string>)
    requires ItemsOk(items) && |argv| + 2 <= MAX_ARGS
    ensures Scan(Line(items), false, "", argv) == if Fits(items, |argv|) then Ok(argv + TextsOf(items)) else TooLong
    decreases |items|
  {
    hide Scan, Line, Written, TextOf, TextsOf, Fits;
    LineUnfold(items);
    if items == [] {
      ScanNone(argv);
      assert argv + [] == argv;
    } else if |argv| + 2 == MAX_ARGS {
      FitsFull(items, |argv|);
      ScanTooLong(Line(items), argv);
    } else {
      var it, rest := items[0], Line(items[1..]);
      assert ItemOk(it) && ItemsOk(items[1..]);
      hide ItemOk, ItemsOk;
      ScanItem(it, rest, argv);
      FitsNext(items, |argv|);
      var text := TextOf(it.pieces);
      var argv' := argv + Pushed([], text);
      if |argv'| + 2 == MAX_ARGS && |it.gap| > 1 {
      } else {
        ScanLine(items[1..], argv');
        assert argv' + TextsOf(items[1..]) == argv + (Pushed([], text) + TextsOf(items[1..]));
      }
    }
  }

  lemma ScanNone(argv: seq<string>)
    requires |argv| + 2 <= MAX_ARGS
    ensures Scan("", false, "", argv) == Ok(argv) && Fits([], |argv|)
  {
  }

  /** An argument and the white space behind it. */
  lemma ScanItem(it: Item, rest: string, argv: seq<string>)
    requires ItemOk(it) && |argv| + 2 < MAX_ARGS
    ensures var argv' := argv + Pushed([], TextOf(it.pieces));
            Scan(Written(it.pieces) + (it.gap + rest), false, "", argv) ==
              if |argv'| + 2 == MAX_ARGS && |it.gap| > 1 then TooLong else Scan(rest, false, "", argv')
  {
    var text := TextOf(it.pieces);
    var argv' := argv + Pushed([], text);
    assert Pushed(argv, text) == argv';
    GapTail(it.gap);
    hide Scan, Written, TextOf, Pushed;
    ScanPieces(it.pieces, it.gap + rest, "", argv);
    assert "" + text == text;
    ScanSeparator(it.gap, rest, text, argv);
    if |argv'| + 2 != MAX_ARGS {
      ScanGap(it.gap[1..], rest, argv');
    } else if |it.gap| > 1 {
      ScanTooLong(it.gap[1..] + rest, argv');
    } else {
      assert it.gap[1..] + rest == rest;
    }
  }

  /** A line of arguments, in quotes, bare or in pieces of both, with any white space in front, between and behind, is
      read back to the arguments that are not empty. There may be 30 of them if nothing but one white space character
      follows the last. */
  lemma LineReadBack(lead: string, items: seq<Item>)
    requires Gap(lead) && ItemsOk(items)
    ensures var n := |TextsOf(items)|;
            var tight := items != [] && TextOf(items[|items| - 1].pieces) != "" && |items[|items| - 1].gap| == 1;
            Scan(lead + Line(items), false, "", []) ==
              if n < 30 || (n == 30 && tight) then Ok(TextsOf(items)) else TooLong
  {
    ScanGap(lead, Line(items), []);
    ScanLine(items, []);
    assert [] + TextsOf(items) == TextsOf(items);
  }

  lemma ScanNewline(arg: string, argv: seq<string>)
    requires |argv| + 2 != MAX_ARGS
    ensures Scan("\n", false, arg, argv) == Ok(Pushed(argv, arg))
  {
    assert "\n"[1..] == "";
  }

  /** The newline is not needed behind a last argument whose quotes are closed. */
  lemma {:induction false} NewlineOptional(s: string, quoted: bool, arg: string, argv: seq<string>)
    requires s != "" && !IsSpace(s[|s| - 1]) && !Unclosed(s, quoted)
    ensures Scan(s, quoted, arg, argv) == Scan(s + "\n", quoted, arg, argv)
    decreases |s|
  {
    var s' := s + "\n";
    assert s'[0] == s[0] && s'[1..] == s[1..] + "\n";
    if |s| == 1 {
      assert s[1..] == "" && s'[1..] == "\n";
      assert Quotes(s[1..]) == 0;
      if |argv| + 2 != MAX_ARGS {
        ScanNewline(if s[0] == '"' then arg else arg + [s[0]], argv);
      }
    } else if |argv| + 2 != MAX_ARGS {
      var rest := s[1..];
      assert rest[|rest| - 1] == s[|s| - 1];
      if s[0] == '"' {
        NewlineOptional(rest, !quoted, arg, argv);
      } else if !IsSpace(s[0]) || quoted {
        NewlineOptional(rest, quoted, arg + [s[0]], argv);
      } else {
        NewlineOptional(rest, false, "", Pushed(argv, arg));
      }
    }
  }

  /** How many quotes there are. */
  function Quotes(s: string): nat {
    if s == "" then 0 else Quotes(s[1..]) + (if s[0] == '"' then 1 else 0)
  }

  /** Is a quote open at the end of s? */
  predicate Unclosed(s: string, quoted: bool) {
    (Quotes(s) + (if quoted then 1 else 0)) % 2 == 1
  }

  /** However a line is read on, a quote that is never closed is reported exactly when the line does not end in white
      space, unless there are too many arguments first. */
  lemma {:induction false} OpenQuote(s: string, quoted: bool, arg: string, argv: seq<string>)
    requires s != ""
    ensures var r := Scan(s, quoted, arg, argv);
            r == TooLong || (r == MissingQuote <==> Unclosed(s, quoted) && !IsSpace(s[|s| - 1]))
    decreases |s|
  {
    if |s| == 1 {
      assert Quotes(s[1..]) == 0;
    } else if |argv| + 2 != MAX_ARGS {
      var rest := s[1..];
      assert rest[|rest| - 1] == s[|s| - 1];
      if s[0] == '"' {
        OpenQuote(rest, !quoted, arg, argv);
      } else if !IsSpace(s[0]) || quoted {
        OpenQuote(rest, quoted, arg + [s[0]], argv);
      } else {
        OpenQuote(rest, false, "", Pushed(argv, arg));
      }
    }
  }

  /** The last quote of a line opened inside an argument or before one: with white space at the end the line is
      accepted, and all of that argument is lost. */
  lemma LostArgument(w: string, last: char, arg: string, argv: seq<string>)
    requires '"' !in w && last != '"' && |argv| + 2 < MAX_ARGS
    ensures Scan("\"" + w + [last], false, arg, argv) == if IsSpace(last) then Ok(argv) else MissingQuote
  {
    var s := "\"" + w + [last];
    assert s[0] == '"' && s[1..] == w + [last];
    ScanText(w, [last], true, arg, argv);
  }
}
