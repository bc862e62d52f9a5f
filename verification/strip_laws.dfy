/** What stripping means, without the scanner and without the grammar: laws for every construct as it is
    written, and the proof that they determine the result on every text. */
module StripLaws {
  import opened Stripper

  // ---------------------------------------------------------------- the laws

  predicate Starts(s: string, word: string) {
    |word| <= |s| && s[..|word|] == word
  }

  /** What stands between the delimiters of a block comment: characters, nested comments, and at the very
      end of the text perhaps a nested comment that is never closed. */
  datatype Body = End | Char(c: char, rest: Body) | Nest(inner: Body, rest: Body) | Unclosed(inner: Body)

  function Written(b: Body): string {
    match b
    case End => ""
    case Char(c, rest) => [c] + Written(rest)
    case Nest(inner, rest) => "/-" + (Written(inner) + ("-/" + Written(rest)))
    case Unclosed(inner) => "/-" + Written(inner)
  }

  /** Followed by `after`, no character of the body begins a delimiter. */
  predicate Fits(b: Body, after: string) {
    match b
    case End => true
    case Char(c, rest) =>
      var here := [c] + (Written(rest) + after);
      !Starts(here, "/-") && !Starts(here, "-/") && Fits(rest, after)
    case Nest(inner, rest) => Fits(inner, "-/" + (Written(rest) + after)) && Fits(rest, after)
    case Unclosed(inner) => after == "" && Fits(inner, "")
  }

  /** The units of a string literal: an escaped pair, or one character that is neither quote nor backslash. */
  predicate Unit(u: string) {
    if |u| == 1 then u[0] != '"' && u[0] != '\\' else |u| == 2 && u[0] == '\\'
  }

  function Flat(units: seq<string>): string {
    if units == [] then "" else units[0] + Flat(units[1..])
  }

  ghost predicate KeepsPlain(f: string -> string, c: char, rest: string) {
    var s := [c] + rest;
    !Starts(s, "--") && !Starts(s, "/-") && c != '"' ==> f(s) == [c] + f(rest)
  }

  ghost predicate BlanksLine(f: string -> string, body: string, rest: string) {
    '\n' !in body && (rest == "" || rest[0] == '\n') ==> f("--" + body + rest) == Blanks("--" + body) + f(rest)
  }

  ghost predicate BlanksComment(f: string -> string, body: Body, rest: string) {
    Fits(body, "-/" + rest) ==>
      f("/-" + Written(body) + "-/" + rest) == Blanks("/-" + Written(body) + "-/") + f(rest)
  }

  ghost predicate BlanksOpenComment(f: string -> string, body: Body) {
    Fits(body, "") ==> f("/-" + Written(body)) == Blanks("/-" + Written(body))
  }

  ghost predicate BlanksString(f: string -> string, units: seq<string>, rest: string) {
    (forall i :: 0 <= i < |units| ==> Unit(units[i])) ==>
      f("\"" + Flat(units) + "\"" + rest) == Blanks("\"" + Flat(units) + "\"") + f(rest)
  }

  /** A literal that is never closed may end in a lone backslash. */
  ghost predicate BlanksOpenString(f: string -> string, units: seq<string>, last: string) {
    (forall i :: 0 <= i < |units| ==> Unit(units[i])) && (last == "" || last == "\\") ==>
      f("\"" + Flat(units) + last) == Blanks("\"" + Flat(units) + last)
  }

  /** The laws: plain characters stay, and every comment and literal, as it is written, is blanked. */
  ghost predicate Strips(f: string -> string) {
    && f("") == ""
    && (forall c: char, rest: string :: KeepsPlain(f, c, rest))
    && (forall body: string, rest: string :: BlanksLine(f, body, rest))
    && (forall body: Body, rest: string :: BlanksComment(f, body, rest))
    && (forall body: Body :: BlanksOpenComment(f, body))
    && (forall units: seq<string>, rest: string :: BlanksString(f, units, rest))
    && (forall units: seq<string>, last: string :: BlanksOpenString(f, units, last))
  }

  // ---------------------------------------------------------------- the grammar depends on the rest only

  lemma {:induction false} LineShift(p: string, t: string, i: nat)
    requires i <= |t|
    ensures LineEnd(p + t, |p| + i) == |p| + LineEnd(t, i)
    decreases |t| - i
  {
    if i < |t| { LineShift(p, t, i + 1); }
  }

  lemma {:induction false} StringShift(p: string, t: string, i: nat)
    requires i <= |t|
    ensures StringEnd(p + t, |p| + i) == |p| + StringEnd(t, i)
    decreases |t| - i
  {
    if i < |t| {
      StringShift(p, t, i + 1);
      if i + 1 < |t| { StringShift(p, t, i + 2); }
    }
  }

  lemma {:induction false} BlockShift(p: string, t: string, i: nat)
    requires i <= |t|
    ensures BlockEnd(p + t, |p| + i) == |p| + BlockEnd(t, i)
    decreases |t| - i
  {
    hide BlockEnd, Opens;
    BlockStep(t, i);
    BlockStep(p + t, |p| + i);
    if i < |t| {
      OpensShift(p, t, i);
      if Opens(t, i, '/', '-') {
        BlockShift(p, t, i + 2);
        BlockShift(p, t, BlockEnd(t, i + 2));
      } else if !Opens(t, i, '-', '/') {
        BlockShift(p, t, i + 1);
      }
    }
  }

  lemma BlockStep(s: string, i: nat)
    requires i <= |s|
    ensures forall c, d :: Opens(s, i, c, d) ==> i + 2 <= |s|
    ensures BlockEnd(s, i) ==
            if i == |s| then i
            else if Opens(s, i, '/', '-') then BlockEnd(s, BlockEnd(s, i + 2))
            else if Opens(s, i, '-', '/') then i + 2
            else BlockEnd(s, i + 1)
  {
  }

  lemma OpensShift(p: string, t: string, i: nat)
    requires i < |t|
    ensures forall c, d :: Opens(p + t, |p| + i, c, d) <==> Opens(t, i, c, d)
    ensures (p + t)[|p| + i] == t[i]
  {
  }

  lemma SkipShift(p: string, t: string, i: nat)
    requires i < |t|
    ensures Skip(p + t, |p| + i) == |p| + Skip(t, i) && Plain(p + t, |p| + i) == Plain(t, i)
  {
    hide Opens, LineEnd, BlockEnd, StringEnd;
    OpensShift(p, t, i);
    BlockStep(t, i);
    if Opens(t, i, '-', '-') { LineShift(p, t, i + 2); }
    if Opens(t, i, '/', '-') { BlockShift(p, t, i + 2); }
    StringShift(p, t, i + 1);
  }

  lemma {:induction false} CodeShift(p: string, t: string, i: nat)
    requires i <= |t|
    ensures Code(p + t, |p| + i) == Code(t, i)
    decreases |t| - i
  {
    hide Code, Skip, Plain, Blanks;
    if i == |t| {
      NoCode(t);
      NoCode(p + t);
    } else {
      var e := Skip(t, i);
      SkipShift(p, t, i);
      CodeSplit(t, i);
      CodeSplit(p + t, |p| + i);
      CodeShift(p, t, e);
      assert (p + t)[|p| + i] == t[i] && (p + t)[|p| + i..|p| + e] == t[i..e];
    }
  }

  lemma NoCode(s: string)
    ensures Code(s, |s|) == ""
  {
  }

  /** What stands first decides, and the rest is stripped on its own. */
  lemma StripFirst(s: string)
    requires s != ""
    ensures
      var e := Skip(s, 0);
      Strip(s) == (if Plain(s, 0) then [s[0]] else Blanks(s[..e])) + Strip(s[e..])
  {
    hide Code, Skip, Plain;
    var e := Skip(s, 0);
    CodeSplit(s, 0);
    CodeShift(s[..e], s[e..], 0);
    assert s == s[..e] + s[e..] && s[0..e] == s[..e];
  }

  // ---------------------------------------------------------------- stripping obeys the laws

  lemma {:induction false} LineReaches(s: string, i: nat, e: nat)
    requires i <= e <= |s| && '\n' !in s[i..e] && (e == |s| || s[e] == '\n')
    ensures LineEnd(s, i) == e
    decreases e - i
  {
    if i < e {
      assert s[i] in s[i..e];
      assert s[i + 1..e] == s[i..e][1..];
      LineReaches(s, i + 1, e);
    }
  }

  /** A body that fits is consumed as a whole. */
  lemma {:induction false} BodyConsumed(s: string, i: nat, b: Body, after: string)
    requires i <= |s| && s[i..] == Written(b) + after && Fits(b, after)
    ensures i + |Written(b)| <= |s| && BlockEnd(s, i) == BlockEnd(s, i + |Written(b)|)
    decreases b
  {
    hide BlockEnd, Opens, Starts, Written;
    Parts(b, after);
    match b
    case End =>
    case Char(c, rest) =>
      CharConsumed(s, i, c, Written(rest) + after);
      BodyConsumed(s, i + 1, rest, after);
    case Nest(inner, rest) =>
      var tail := "-/" + (Written(rest) + after);
      NestedConsumed(s, i, inner, Written(rest) + after);
      BodyConsumed(s, i + 2, inner, tail);
      BodyConsumed(s, i + 4 + |Written(inner)|, rest, after);
    case Unclosed(inner) =>
      OpenConsumed(s, i, Written(inner));
      BodyConsumed(s, i + 2, inner, "");
  }

  /** What is written, piece by piece from the left. */
  lemma Parts(b: Body, after: string)
    ensures b.End? ==> |Written(b)| == 0
    ensures b.Char? ==> Written(b) + after == [b.c] + (Written(b.rest) + after) && |Written(b)| == 1 + |Written(b.rest)|
    ensures b.Nest? ==>
      && Written(b) + after == "/-" + (Written(b.inner) + ("-/" + (Written(b.rest) + after)))
      && |Written(b)| == 4 + |Written(b.inner)| + |Written(b.rest)|
    ensures b.Unclosed? && after == "" ==>
      Written(b) + after == "/-" + Written(b.inner) && |Written(b)| == 2 + |Written(b.inner)|
  {
  }

  lemma OpenConsumed(s: string, i: nat, rest: string)
    requires i <= |s| && s[i..] == "/-" + rest
    ensures i + 2 <= |s| && s[i + 2..] == rest + "" && BlockEnd(s, |s|) == |s|
    ensures BlockEnd(s, i) == BlockEnd(s, BlockEnd(s, i + 2))
  {
    hide BlockEnd, Opens, Starts;
    TailOpens(rest);
    SameStart(s, i, "/-" + rest);
    BlockStep(s, i);
    BlockStep(s, |s|);
    assert s[i + 2..] == s[i..][2..];
  }

  lemma TailStarts(t: string)
    ensures Starts("-/" + t, "-/") && !Starts("-/" + t, "/-")
  {
    assert ("-/" + t)[0] == '-';
    assert ("-/" + t)[..2] == "-/";
  }

  lemma TailOpens(t: string)
    ensures Starts("/-" + t, "/-")
  {
    assert ("/-" + t)[..2] == "/-";
  }

  lemma CharConsumed(s: string, i: nat, c: char, rest: string)
    requires i <= |s| && s[i..] == [c] + rest && !Starts([c] + rest, "/-") && !Starts([c] + rest, "-/")
    ensures i < |s| && s[i + 1..] == rest && BlockEnd(s, i) == BlockEnd(s, i + 1)
  {
    hide BlockEnd, Opens, Starts;
    SameStart(s, i, [c] + rest);
    BlockStep(s, i);
    assert s[i + 1..] == s[i..][1..];
  }

  /** Where a nested comment and its closing delimiter stand. */
  lemma NestedConsumed(s: string, i: nat, inner: Body, rest: string)
    requires i <= |s| && s[i..] == "/-" + (Written(inner) + ("-/" + rest))
    ensures
      var j := i + 2 + |Written(inner)|;
      && j + 2 <= |s| && s[j + 2..] == rest && s[i + 2..] == Written(inner) + ("-/" + rest)
      && BlockEnd(s, j) == j + 2 && BlockEnd(s, i) == BlockEnd(s, BlockEnd(s, i + 2))
  {
    hide BlockEnd, Opens, Starts;
    var tail, j := "-/" + rest, i + 2 + |Written(inner)|;
    TailStarts(rest);
    TailOpens(Written(inner) + tail);
    BlockStep(s, i);
    BlockStep(s, j);
    assert s[j + 2..] == s[i..][j + 2 - i..] == rest;
    assert s[i + 2..] == s[i..][2..];
    assert s[j..] == s[i..][j - i..] == tail;
    SameStart(s, i, "/-" + (Written(inner) + tail));
    SameStart(s, j, tail);
  }

  lemma SameStart(s: string, i: nat, t: string)
    requires i <= |s| && s[i..] == t
    ensures Opens(s, i, '/', '-') <==> Starts(t, "/-")
    ensures Opens(s, i, '-', '/') <==> Starts(t, "-/")
    ensures Opens(s, i, '-', '-') <==> Starts(t, "--")
  {
    if |t| >= 2 {
      assert t[0] == s[i] && t[1] == s[i + 1];
      assert t[..2] == [t[0], t[1]];
    }
  }

  lemma {:induction false} UnitsConsumed(s: string, i: nat, units: seq<string>, after: string)
    requires i <= |s| && s[i..] == Flat(units) + after && forall k :: 0 <= k < |units| ==> Unit(units[k])
    ensures i + |Flat(units)| <= |s| && StringEnd(s, i) == StringEnd(s, i + |Flat(units)|)
    decreases |units|
  {
    if units != [] {
      var u := units[0];
      assert s[i..] == u + (Flat(units[1..]) + after);
      assert s[i] == u[0] && (|u| == 2 ==> i + 1 < |s|);
      assert s[i + |u|..] == s[i..][|u|..] == Flat(units[1..]) + after;
      UnitsConsumed(s, i + |u|, units[1..], after);
    }
  }

  lemma StripPlain(c: char, rest: string)
    ensures KeepsPlain(Strip, c, rest)
  {
    hide Strip, Skip;
    var s := [c] + rest;
    if !Starts(s, "--") && !Starts(s, "/-") && c != '"' {
      SameStart(s, 0, s);
      StripFirst(s);
      PlainSkip(s);
    }
  }

  lemma PlainSkip(s: string)
    requires s != "" && Plain(s, 0)
    ensures Skip(s, 0) == 1
  {
  }

  /** A construct that reaches up to `rest` is blanked. */
  lemma StripConstruct(text: string, rest: string)
    requires text != "" && !Plain(text + rest, 0) && Skip(text + rest, 0) == |text|
    ensures Strip(text + rest) == Blanks(text) + Strip(rest)
  {
    hide Strip, Skip, Plain;
    StripFirst(text + rest);
    Tail(text, rest);
  }

  lemma Tail(a: string, b: string)
    ensures (a + b)[..|a|] == a && (a + b)[|a|..] == b
  {
  }

  /** Where the construct at the start of a text ends. */
  lemma SkipsTo(s: string)
    requires s != ""
    ensures Starts(s, "--") ==> !Plain(s, 0) && Skip(s, 0) == LineEnd(s, 2)
    ensures Starts(s, "/-") ==> !Plain(s, 0) && Skip(s, 0) == BlockEnd(s, 2)
    ensures s[0] == '"' ==> !Plain(s, 0) && Skip(s, 0) == StringEnd(s, 1)
  {
    hide LineEnd, BlockEnd, StringEnd;
    SameStart(s, 0, s);
    assert Starts(s, "--") ==> s[..2][0] == '-';
    assert Starts(s, "/-") ==> s[..2][0] == '/';
  }

  lemma Begins(word: string, rest: string)
    ensures Starts(word + rest, word)
  {
    Tail(word, rest);
  }

  lemma StripLine(body: string, rest: string)
    ensures BlanksLine(Strip, body, rest)
  {
    hide Strip, Skip, Plain, Starts, LineEnd;
    if '\n' !in body && (rest == "" || rest[0] == '\n') {
      var line := "--" + body;
      var s := line + rest;
      assert s == "--" + (body + rest);
      Begins("--", body + rest);
      SkipsTo(s);
      LineStands(body, rest);
      StripConstruct(line, rest);
    }
  }

  lemma LineStands(body: string, rest: string)
    requires '\n' !in body && (rest == "" || rest[0] == '\n')
    ensures LineEnd("--" + body + rest, 2) == 2 + |body|
  {
    hide LineEnd;
    var s := "--" + body + rest;
    assert s[2..2 + |body|] == body;
    LineReaches(s, 2, 2 + |body|);
  }

  lemma StripComment(body: Body, rest: string)
    ensures BlanksComment(Strip, body, rest)
  {
    hide Strip, Skip, Plain, Starts, BlockEnd, Fits;
    if Fits(body, "-/" + rest) {
      var comment := "/-" + Written(body) + "-/";
      var s, tail := comment + rest, Written(body) + ("-/" + rest);
      assert s == "/-" + tail;
      Begins("/-", tail);
      SkipsTo(s);
      Tail("/-", tail);
      BodyConsumed(s, 2, body, "-/" + rest);
      CommentEnds(s, 2 + |Written(body)|, rest);
      StripConstruct(comment, rest);
    }
  }

  lemma CommentEnds(s: string, j: nat, rest: string)
    requires |s| == j + 2 + |rest| && s[j] == '-' && s[j + 1] == '/'
    ensures BlockEnd(s, j) == j + 2
  {
    hide BlockEnd;
    BlockStep(s, j);
  }

  lemma StripOpenComment(body: Body)
    ensures BlanksOpenComment(Strip, body)
  {
    hide Strip, Skip, Plain, Starts, BlockEnd, Fits;
    if Fits(body, "") {
      var s := "/-" + Written(body);
      Begins("/-", Written(body));
      SkipsTo(s);
      Tail("/-", Written(body));
      assert Written(body) + "" == Written(body);
      BodyConsumed(s, 2, body, "");
      BlockStep(s, |s|);
      StripAll(s);
    }
  }

  /** A construct that reaches the end of the text. */
  lemma StripAll(s: string)
    requires s != "" && !Plain(s, 0) && Skip(s, 0) == |s|
    ensures Strip(s) == Blanks(s)
  {
    hide Strip, Skip, Plain;
    assert s + "" == s;
    StripConstruct(s, "");
    StripsNothing();
  }

  lemma StripsNothing()
    ensures Strip("") == ""
  {
  }

  lemma StripString(units: seq<string>, rest: string)
    ensures BlanksString(Strip, units, rest)
  {
    hide Strip, Skip, Plain, Starts, StringEnd, Unit;
    if forall i :: 0 <= i < |units| ==> Unit(units[i]) {
      var text := "\"" + Flat(units) + "\"";
      var s, tail := text + rest, Flat(units) + ("\"" + rest);
      assert s == "\"" + tail;
      SkipsTo(s);
      Tail("\"", tail);
      UnitsConsumed(s, 1, units, "\"" + rest);
      StringStep(s, 1 + |Flat(units)|);
      StripConstruct(text, rest);
    }
  }

  lemma StringStep(s: string, i: nat)
    requires i < |s|
    ensures s[i] == '"' ==> StringEnd(s, i) == i + 1
    ensures s[i] == '\\' && i + 1 == |s| ==> StringEnd(s, i) == |s|
  {
  }

  lemma StripOpenString(units: seq<string>, last: string)
    ensures BlanksOpenString(Strip, units, last)
  {
    hide Strip, Skip, Plain, Starts, StringEnd, Unit;
    if (forall i :: 0 <= i < |units| ==> Unit(units[i])) && (last == "" || last == "\\") {
      var s, tail := "\"" + Flat(units) + last, Flat(units) + last;
      assert s == "\"" + tail;
      SkipsTo(s);
      Tail("\"", tail);
      UnitsConsumed(s, 1, units, last);
      StringStops(s, 1 + |Flat(units)|);
      StripAll(s);
    }
  }

  /** Stripping obeys every law. */
  lemma StripObeys()
    ensures Strips(Strip)
  {
    hide KeepsPlain, BlanksLine, BlanksComment, BlanksOpenComment, BlanksString, BlanksOpenString, Strip;
    StripsNothing();
    forall c: char, rest: string ensures KeepsPlain(Strip, c, rest) { StripPlain(c, rest); }
    forall body: string, rest: string ensures BlanksLine(Strip, body, rest) { StripLine(body, rest); }
    forall body: Body, rest: string ensures BlanksComment(Strip, body, rest) { StripComment(body, rest); }
    forall body: Body ensures BlanksOpenComment(Strip, body) { StripOpenComment(body); }
    forall units: seq<string>, rest: string ensures BlanksString(Strip, units, rest) { StripString(units, rest); }
    forall units: seq<string>, last: string ensures BlanksOpenString(Strip, units, last) {
      StripOpenString(units, last);
    }
  }

  // ---------------------------------------------------------------- nothing else obeys them

  /** Every text behind an opening delimiter is a body, closed or not. */
  lemma {:induction false} BodyOf(s: string, i: nat) returns (b: Body, closed: bool)
    requires i <= |s|
    ensures
      var e := BlockEnd(s, i);
      if closed then e >= i + 2 && s[i..] == Written(b) + ("-/" + s[e..]) && Fits(b, "-/" + s[e..])
      else e == |s| && s[i..] == Written(b) && Fits(b, "")
    decreases |s| - i
  {
    hide BlockEnd, Opens, Starts;
    BlockStep(s, i);
    SameStart(s, i, s[i..]);
    if i == |s| {
      b, closed := End, false;
    } else if Opens(s, i, '/', '-') {
      b, closed := NestOf(s, i);
    } else if Opens(s, i, '-', '/') {
      b, closed := End, true;
      Delimited(s, i, "-/");
    } else {
      var rest;
      rest, closed := BodyOf(s, i + 1);
      b := Char(s[i], rest);
      assert s[i..] == [s[i]] + s[i + 1..];
      var after := if closed then "-/" + s[BlockEnd(s, i)..] else "";
      assert s[i..] == [s[i]] + (Written(rest) + after);
    }
  }

  lemma Delimited(s: string, i: nat, word: string)
    requires i <= |s| && Starts(s[i..], word)
    ensures i + |word| <= |s| && s[i..] == word + s[i + |word|..]
  {
    assert s[i..][|word|..] == s[i + |word|..];
  }

  lemma {:induction false} NestOf(s: string, i: nat) returns (b: Body, closed: bool)
    requires i + 2 <= |s| && Opens(s, i, '/', '-')
    ensures
      var e := BlockEnd(s, i);
      if closed then e >= i + 2 && s[i..] == Written(b) + ("-/" + s[e..]) && Fits(b, "-/" + s[e..])
      else e == |s| && s[i..] == Written(b) && Fits(b, "")
    decreases |s| - i, 0
  {
    hide BlockEnd, Starts;
    BlockStep(s, i);
    SameStart(s, i, s[i..]);
    Delimited(s, i, "/-");
    var inner, ended := BodyOf(s, i + 2);
    var m := BlockEnd(s, i + 2);
    if !ended {
      BlockStep(s, |s|);
      return Unclosed(inner), false;
    }
    var rest;
    rest, closed := BodyOf(s, m);
    b := Nest(inner, rest);
    var after := if closed then "-/" + s[BlockEnd(s, i)..] else "";
    assert s[m..] == Written(rest) + after;
    assert s[i..] == "/-" + (Written(inner) + ("-/" + (Written(rest) + after)));
    assert s[i..] == Written(b) + after;
  }

  /** The text from i on is this literal body and, when it is closed, its quote and what follows at e. */
  ghost predicate Spelled(s: string, i: nat, units: seq<string>, last: string, closed: bool, e: nat)
    requires i <= |s| && e <= |s|
  {
    if closed then e > i && s[i..] == Flat(units) + ("\"" + s[e..])
    else e == |s| && s[i..] == Flat(units) + last && (last == "" || last == "\\")
  }

  /** Every text behind a quote is a literal's units, closed or not. */
  lemma {:induction false} UnitsOf(s: string, i: nat) returns (units: seq<string>, last: string, closed: bool)
    requires i <= |s|
    ensures forall k :: 0 <= k < |units| ==> Unit(units[k])
    ensures Spelled(s, i, units, last, closed, StringEnd(s, i))
    decreases |s| - i
  {
    hide Unit, StringEnd, Spelled;
    units, last, closed := [], "", false;
    if i < |s| && s[i] != '"' && (s[i] == '\\' ==> i + 1 < |s|) {
      var u := if s[i] == '\\' then s[i..i + 2] else s[i..i + 1];
      var rest;
      OneUnit(s, i);
      rest, last, closed := UnitsOf(s, i + |u|);
      units := [u] + rest;
      UnitSpelled(s, i, u, rest, last, closed);
    } else {
      closed := i < |s| && s[i] == '"';
      last := if i < |s| && s[i] == '\\' then "\\" else "";
      LastSpelled(s, i, last, closed);
    }
  }

  lemma LastSpelled(s: string, i: nat, last: string, closed: bool)
    requires i <= |s| && (i < |s| ==> s[i] == '"' || (s[i] == '\\' && i + 1 == |s|))
    requires closed == (i < |s| && s[i] == '"') && last == if i < |s| && s[i] == '\\' then "\\" else ""
    ensures Spelled(s, i, [], last, closed, StringEnd(s, i))
  {
    hide StringEnd;
    StringStops(s, i);
    FlatEmpty();
  }

  lemma UnitSpelled(s: string, i: nat, u: string, rest: seq<string>, last: string, closed: bool)
    requires i + |u| <= |s| && u != "" && s[i..i + |u|] == u && StringEnd(s, i) == StringEnd(s, i + |u|)
    requires Spelled(s, i + |u|, rest, last, closed, StringEnd(s, i + |u|))
    ensures Spelled(s, i, [u] + rest, last, closed, StringEnd(s, i))
  {
    hide StringEnd, Flat;
    FlatJoins(u, rest, if closed then "\"" + s[StringEnd(s, i)..] else last);
    assert s[i..] == u + s[i + |u|..];
  }

  lemma FlatJoins(u: string, units: seq<string>, after: string)
    ensures Flat([u] + units) + after == u + (Flat(units) + after)
  {
    assert ([u] + units)[1..] == units;
  }

  lemma FlatEmpty()
    ensures Flat([]) == ""
  {
  }

  lemma StringStops(s: string, i: nat)
    requires i <= |s|
    ensures i == |s| || (s[i] == '\\' && i + 1 == |s|) ==> StringEnd(s, i) == |s|
    ensures i < |s| && s[i] == '"' ==> StringEnd(s, i) == i + 1
    ensures s[i..] == if i == |s| then "" else [s[i]] + s[i + 1..]
  {
    if i < |s| { StringStep(s, i); }
  }

  lemma OneUnit(s: string, i: nat)
    requires i < |s| && s[i] != '"' && (s[i] == '\\' ==> i + 1 < |s|)
    ensures
      var u := if s[i] == '\\' then s[i..i + 2] else s[i..i + 1];
      Unit(u) && StringEnd(s, i) == StringEnd(s, i + |u|)
  {
  }

  /** A function that obeys the laws treats what stands first as stripping does. */
  lemma LawsFirst(f: string -> string, s: string)
    requires Strips(f) && s != ""
    ensures
      var e := Skip(s, 0);
      f(s) == (if Plain(s, 0) then [s[0]] else Blanks(s[..e])) + f(s[e..])
  {
    hide LineEnd, BlockEnd, StringEnd, Strips, KeepsPlain, BlanksLine, BlanksComment, BlanksOpenComment, BlanksString,
      BlanksOpenString;
    SameStart(s, 0, s);
    if Opens(s, 0, '-', '-') {
      LineFirst(f, s);
    } else if Opens(s, 0, '/', '-') {
      BlockFirst(f, s);
    } else if s[0] == '"' {
      QuoteFirst(f, s);
    } else {
      PlainFirst(f, s);
    }
  }

  lemma PlainFirst(f: string -> string, s: string)
    requires Strips(f) && s != "" && !Starts(s, "--") && !Starts(s, "/-") && s[0] != '"'
    ensures f(s) == [s[0]] + f(s[1..])
  {
    assert s == [s[0]] + s[1..];
    assert KeepsPlain(f, s[0], s[1..]);
  }

  lemma LineFirst(f: string -> string, s: string)
    requires Strips(f) && Starts(s, "--")
    ensures var e := LineEnd(s, 2); f(s) == Blanks(s[..e]) + f(s[e..])
  {
    var e := LineEnd(s, 2);
    LineStops(s, 2);
    assert s == "--" + s[2..e] + s[e..];
    assert s[..e] == "--" + s[2..e];
    assert BlanksLine(f, s[2..e], s[e..]);
  }

  lemma {:induction false} LineStops(s: string, i: nat)
    requires i <= |s|
    ensures '\n' !in s[i..LineEnd(s, i)]
    ensures LineEnd(s, i) == |s| || s[LineEnd(s, i)] == '\n'
    decreases |s| - i
  {
    if i < |s| && s[i] != '\n' {
      LineStops(s, i + 1);
      assert s[i..LineEnd(s, i)] == [s[i]] + s[i + 1..LineEnd(s, i + 1)];
    }
  }

  lemma BlockFirst(f: string -> string, s: string)
    requires Strips(f) && Starts(s, "/-")
    ensures var e := BlockEnd(s, 2); f(s) == Blanks(s[..e]) + f(s[e..])
  {
    hide BlockEnd, Fits;
    var b, closed := BodyOf(s, 2);
    var e := BlockEnd(s, 2);
    assert s == "/-" + s[2..];
    if closed {
      var comment := "/-" + Written(b) + "-/";
      assert s == comment + s[e..];
      assert |comment| == e && s[..e] == comment;
      assert BlanksComment(f, b, s[e..]);
    } else {
      assert s == "/-" + Written(b) && s[..e] == s && s[e..] == "";
      assert BlanksOpenComment(f, b);
    }
  }

  lemma QuoteFirst(f: string -> string, s: string)
    requires Strips(f) && s != "" && s[0] == '"'
    ensures var e := StringEnd(s, 1); f(s) == Blanks(s[..e]) + f(s[e..])
  {
    hide StringEnd, Unit;
    var units, last, closed := UnitsOf(s, 1);
    var e := StringEnd(s, 1);
    assert s == "\"" + s[1..];
    if closed {
      var text := "\"" + Flat(units) + "\"";
      assert s == text + s[e..];
      assert |text| == e && s[..e] == text;
      assert BlanksString(f, units, s[e..]);
    } else {
      assert s == "\"" + Flat(units) + last && s[..e] == s && s[e..] == "";
      assert BlanksOpenString(f, units, last);
    }
  }

  /** And nothing else does: the laws determine the result on every text. */
  lemma {:induction false} OnlyStripObeys(f: string -> string, s: string)
    requires Strips(f)
    ensures f(s) == Strip(s)
    decreases |s|
  {
    hide Strip, Skip, Plain, KeepsPlain, BlanksLine, BlanksComment, BlanksOpenComment, BlanksString,
      BlanksOpenString;
    StripsNothing();
    if s != "" {
      LawsFirst(f, s);
      StripFirst(s);
      OnlyStripObeys(f, s[Skip(s, 0)..]);
    }
  }
}
