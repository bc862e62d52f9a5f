/** Removal of comments and strings from Lean sources, keeping every line where it was. */
module Stripper {
  /** Comments and strings become spaces; line breaks stay. */
  function Blank(c: char): char {
    if c == '\n' then '\n' else ' '
  }

  function Blanks(s: string): (r: string)
    ensures |r| == |s|
  {
    seq(|s|, i requires 0 <= i < |s| => Blank(s[i]))
  }

  predicate Opens(s: string, i: int, first: char, second: char)
    requires 0 <= i
  {
    i + 1 < |s| && s[i] == first && s[i + 1] == second
  }

  // ---------------------------------------------------------------- the grammar

  /** Length of the line comment body at i: up to, not including, the next line break. */
  function LineEnd(s: string, i: nat): (e: nat)
    requires i <= |s|
    ensures i <= e <= |s|
    decreases |s| - i
  {
    if i < |s| && s[i] != '\n' then LineEnd(s, i + 1) else i
  }

  /** End of the string literal whose body starts at i, after the closing quote if there is one. */
  function StringEnd(s: string, i: nat): (e: nat)
    requires i <= |s|
    ensures i <= e <= |s|
    decreases |s| - i
  {
    if i == |s| then i
    else if s[i] == '\\' && i + 1 < |s| then StringEnd(s, i + 2)
    else if s[i] == '"' then i + 1
    else StringEnd(s, i + 1)
  }

  /** End of the block comment whose body starts at i: nested comments are consumed whole. */
  function BlockEnd(s: string, i: nat): (e: nat)
    requires i <= |s|
    ensures i <= e <= |s|
    decreases |s| - i
  {
    if i == |s| then i
    else if Opens(s, i, '/', '-') then BlockEnd(s, BlockEnd(s, i + 2))
    else if Opens(s, i, '-', '/') then i + 2
    else BlockEnd(s, i + 1)
  }

  /** The text from i on, where i is outside every comment and string. */
  function Code(s: string, i: nat): (r: string)
    requires i <= |s|
    ensures |r| == |s| - i
    decreases |s| - i
  {
    if i == |s| then []
    else if Opens(s, i, '-', '-') then
      var e := LineEnd(s, i + 2);
      Blanks(s[i..e]) + Code(s, e)
    else if Opens(s, i, '/', '-') then
      var e := BlockEnd(s, i + 2);
      Blanks(s[i..e]) + Code(s, e)
    else if s[i] == '"' then
      var e := StringEnd(s, i + 1);
      Blanks(s[i..e]) + Code(s, e)
    else [s[i]] + Code(s, i + 1)
  }

  function Strip(s: string): (r: string)
    ensures |r| == |s|
  {
    Code(s, 0)
  }

  // ---------------------------------------------------------------- what stripping preserves

  /** Character by character: a kept character, or its blank. */
  lemma {:induction false} CodeKeeps(s: string, i: nat)
    requires i <= |s|
    ensures forall k :: 0 <= k < |s| - i ==>
      Code(s, i)[k] == s[i + k] || Code(s, i)[k] == Blank(s[i + k])
    decreases |s| - i
  {
    hide Code, Skip, Plain;
    if i < |s| {
      var e := Skip(s, i);
      CodeSplit(s, i);
      CodeKeeps(s, e);
      var head := if Plain(s, i) then [s[i]] else Blanks(s[i..e]);
      forall k | 0 <= k < |s| - i ensures Code(s, i)[k] == s[i + k] || Code(s, i)[k] == Blank(s[i + k]) {
        if k >= |head| {
          assert Code(s, i)[k] == Code(s, e)[k - |head|];
        } else {
          assert Code(s, i)[k] == head[k];
        }
      }
    }
  }

  /** Where the construct that starts at i ends; one character if it is plain code. */
  function Skip(s: string, i: nat): (e: nat)
    requires i < |s|
    ensures i < e <= |s|
  {
    if Opens(s, i, '-', '-') then LineEnd(s, i + 2)
    else if Opens(s, i, '/', '-') then BlockEnd(s, i + 2)
    else if s[i] == '"' then StringEnd(s, i + 1)
    else i + 1
  }

  predicate Plain(s: string, i: int)
    requires 0 <= i < |s|
  {
    !Opens(s, i, '-', '-') && !Opens(s, i, '/', '-') && s[i] != '"'
  }

  lemma CodeSplit(s: string, i: nat)
    requires i < |s|
    ensures Code(s, i) == (if Plain(s, i) then [s[i]] else Blanks(s[i..Skip(s, i)])) + Code(s, Skip(s, i))
  {
  }

  /** No comment opener and no quote anywhere. */
  ghost predicate Clean(s: string) {
    forall i :: 0 <= i < |s| ==> Plain(s, i)
  }

  lemma {:induction false} CodeClean(s: string, i: nat)
    requires i <= |s|
    ensures Clean(Code(s, i))
    decreases |s| - i
  {
    if i < |s| {
      var e := Skip(s, i);
      CodeClean(s, e);
      CodeKeeps(s, e);
      CodeSplit(s, i);
      CleanAppend(if Plain(s, i) then [s[i]] else Blanks(s[i..e]), Code(s, e), s, i);
    }
  }

  lemma CleanAppend(head: string, tail: string, s: string, i: nat)
    requires i < |s| && Clean(tail)
    requires if Plain(s, i) then head == [s[i]] else forall k :: 0 <= k < |head| ==> head[k] == ' ' || head[k] == '\n'
    requires Plain(s, i) && tail != [] ==> i + 1 < |s| && (tail[0] == s[i + 1] || tail[0] == Blank(s[i + 1]))
    ensures Clean(head + tail)
  {
    var r := head + tail;
    forall k | 0 <= k < |r| ensures Plain(r, k) {
      if k >= |head| {
        assert Plain(tail, k - |head|);
      }
    }
  }

  lemma {:induction false} CleanCode(s: string, i: nat)
    requires i <= |s| && Clean(s)
    ensures Code(s, i) == s[i..]
    decreases |s| - i
  {
    if i < |s| {
      assert Plain(s, i);
      CleanCode(s, i + 1);
    }
  }

  /** Stripping leaves no comment opener and no quote, changes nothing else than characters to
      blanks, and has exactly the clean texts as fixed points; so it is idempotent. */
  lemma StripMeaning(s: string)
    ensures Clean(Strip(s))
    ensures forall k :: 0 <= k < |s| ==> Strip(s)[k] == s[k] || (s[k] != '\n' && Strip(s)[k] == ' ')
    ensures Strip(s) == s <==> Clean(s)
    ensures Strip(Strip(s)) == Strip(s)
  {
    CodeClean(s, 0);
    CodeKeeps(s, 0);
    CleanCode(Strip(s), 0);
    if Clean(s) {
      CleanCode(s, 0);
    }
  }

  // ---------------------------------------------------------------- line numbers

  function LineNumber(s: string, offset: nat): nat
    requires offset <= |s|
  {
    if offset == 0 then 1 else LineNumber(s, offset - 1) + if s[offset - 1] == '\n' then 1 else 0
  }

  /** One more than the line breaks before the offset. */
  lemma {:induction false} LineNumberExactly(s: string, offset: nat)
    requires offset <= |s|
    ensures LineNumber(s, offset) == 1 + |Breaks(s, offset)|
  {
    if offset > 0 {
      LineNumberExactly(s, offset - 1);
      assert Breaks(s, offset) == Breaks(s, offset - 1) + if s[offset - 1] == '\n' then {offset - 1} else {};
    } else {
      assert Breaks(s, 0) == {};
    }
  }

  ghost function Breaks(s: string, offset: nat): set<int>
    requires offset <= |s|
  {
    set k | 0 <= k < offset && s[k] == '\n'
  }

  /** Every offset is on the same line before and after stripping. */
  lemma {:induction false} LinesKept(s: string, offset: nat)
    requires offset <= |s|
    ensures LineNumber(Strip(s), offset) == LineNumber(s, offset)
  {
    if offset > 0 {
      LinesKept(s, offset - 1);
      CodeKeeps(s, 0);
      NewlineKept(s, offset - 1);
    }
  }

  lemma {:induction false} CodeNewlines(s: string, i: nat, k: nat)
    requires i <= |s| && k < |s| - i
    ensures Code(s, i)[k] == '\n' <==> s[i + k] == '\n'
    decreases |s| - i
  {
    hide Code, Skip, Plain;
    var e := Skip(s, i);
    CodeSplit(s, i);
    if k >= e - i {
      CodeNewlines(s, e, k - (e - i));
    }
  }

  lemma NewlineKept(s: string, k: nat)
    requires k < |s|
    ensures Strip(s)[k] == '\n' <==> s[k] == '\n'
  {
    CodeNewlines(s, 0, k);
  }

  // ---------------------------------------------------------------- the scanner

  /** Leaving `depth` nested block comments from i. */
  function Closes(s: string, i: nat, depth: nat): (e: nat)
    requires i <= |s|
    ensures i <= e <= |s|
    decreases depth
  {
    if depth == 0 then i else Closes(s, BlockEnd(s, i), depth - 1)
  }

  /** The output still to come. */
  function Pending(s: string, i: nat, e: nat): string
    requires i <= e <= |s|
  {
    Blanks(s[i..e]) + Code(s, e)
  }

  lemma ClosesEnd(s: string, depth: nat)
    ensures Closes(s, |s|, depth) == |s|
  {
  }

  lemma PendingShift(s: string, i: nat, j: nat, e: nat)
    requires i <= j <= e <= |s|
    ensures Pending(s, i, e) == Blanks(s[i..j]) + Pending(s, j, e)
  {
    assert Blanks(s[i..e]) == Blanks(s[i..j]) + Blanks(s[j..e]);
  }

  /** The scanner's three flags, and where plain code resumes under them. */
  datatype Mode = Mode(depth: nat, inString: bool, inLine: bool) {
    predicate Valid() {
      (inLine ==> depth == 0 && !inString) && (depth > 0 ==> !inString)
    }

    function Resume(s: string, i: nat): (e: nat)
      requires i <= |s|
      ensures i <= e <= |s|
    {
      if inLine then LineEnd(s, i) else if depth > 0 then Closes(s, i, depth)
      else if inString then StringEnd(s, i) else i
    }

    /** The output still to come. */
    function Rest(s: string, i: nat): string
      requires i <= |s|
    {
      Pending(s, i, Resume(s, i))
    }
  }

  const CODE: Mode := Mode(0, false, false)

  /** A step that blanks s[i..j] and does not move the point where code resumes. */
  lemma Blanked(s: string, i: nat, before: Mode, j: nat, after: Mode)
    requires i <= j <= |s| && before.Resume(s, i) == after.Resume(s, j)
    ensures before.Rest(s, i) == Blanks(s[i..j]) + after.Rest(s, j)
  {
    PendingShift(s, i, j, after.Resume(s, j));
  }

  lemma Kept(s: string, i: nat)
    requires i < |s| && Plain(s, i)
    ensures CODE.Rest(s, i) == [s[i]] + CODE.Rest(s, i + 1)
  {
    CodeSplit(s, i);
  }

  /** A line comment ends before its line break, which is plain code. */
  lemma LineBreak(s: string, i: nat)
    requires i < |s| && s[i] == '\n'
    ensures Mode(0, false, true).Rest(s, i) == [s[i]] + CODE.Rest(s, i + 1)
  {
    Kept(s, i);
  }

  /** Entering a comment or a string from code. */
  lemma Entered(s: string, i: nat, j: nat, after: Mode)
    requires i < j <= |s| && !Plain(s, i) && after.Resume(s, j) == Skip(s, i)
    ensures CODE.Rest(s, i) == Blanks(s[i..j]) + after.Rest(s, j)
  {
    CodeSplit(s, i);
    PendingShift(s, i, j, Skip(s, i));
  }

  /** One step of the scanner: how many characters it consumes, the mode after them, and whether
      they are kept. */
  function Transition(s: string, i: nat, mode: Mode): (nat, Mode, bool)
    requires i < |s|
  {
    if mode.inLine then
      if s[i] == '\n' then (1, mode.(inLine := false), true) else (1, mode, false)
    else if mode.depth > 0 then
      if Opens(s, i, '/', '-') then (2, mode.(depth := mode.depth + 1), false)
      else if Opens(s, i, '-', '/') then (2, mode.(depth := mode.depth - 1), false)
      else (1, mode, false)
    else if mode.inString then
      if s[i] == '\\' && i + 1 < |s| then (2, mode, false)
      else (1, mode.(inString := s[i] != '"'), false)
    else if Opens(s, i, '-', '-') then (2, mode.(inLine := true), false)
    else if Opens(s, i, '/', '-') then (2, mode.(depth := 1), false)
    else if s[i] == '"' then (1, mode.(inString := true), false)
    else (1, mode, true)
  }

  /** Inside a comment or a string a step does not move the point where code resumes: counting
      depth up and down is the same as consuming nested comments whole. */
  lemma ResumeSteady(s: string, i: nat, mode: Mode)
    requires i < |s| && mode.Valid() && mode != CODE && !Transition(s, i, mode).2
    ensures
      var (width, after, kept) := Transition(s, i, mode);
      mode.Resume(s, i) == after.Resume(s, i + width)
  {
    if mode.depth > 0 && !mode.inLine {
      assert Closes(s, i, mode.depth) == Closes(s, BlockEnd(s, i), mode.depth - 1);
      if Opens(s, i, '/', '-') {
        assert Closes(s, i + 2, mode.depth + 1) == Closes(s, BlockEnd(s, i + 2), mode.depth);
        assert Closes(s, BlockEnd(s, i + 2), mode.depth) ==
               Closes(s, BlockEnd(s, BlockEnd(s, i + 2)), mode.depth - 1);
      }
    }
  }

  /** A step that leaves plain code resumes where the construct it entered ends. */
  lemma ResumeEntered(s: string, i: nat)
    requires i < |s| && !Transition(s, i, CODE).2
    ensures
      var (width, after, kept) := Transition(s, i, CODE);
      !Plain(s, i) && after.Resume(s, i + width) == Skip(s, i)
  {
    hide LineEnd, StringEnd, BlockEnd;
  }

  lemma TransitionShape(s: string, i: nat, mode: Mode)
    requires i < |s| && mode.Valid()
    ensures
      var (width, after, kept) := Transition(s, i, mode);
      && 1 <= width && i + width <= |s| && after.Valid()
      && (kept ==> width == 1 && after == CODE && if mode.inLine then s[i] == '\n' else mode == CODE && Plain(s, i))
  {
  }

  /** Each scanner step consumes exactly what the grammar says comes next. */
  lemma TransitionRest(s: string, i: nat, mode: Mode)
    requires i < |s| && mode.Valid()
    ensures
      var (width, after, kept) := Transition(s, i, mode);
      && 1 <= width && i + width <= |s| && after.Valid()
      && mode.Rest(s, i) == (if kept then s[i..i + width] else Blanks(s[i..i + width])) + after.Rest(s, i + width)
  {
    hide Code, Blanks, Transition, Plain, Mode.Rest, Mode.Resume;
    var (width, after, kept) := Transition(s, i, mode);
    TransitionShape(s, i, mode);
    if kept {
      assert s[i..i + 1] == [s[i]];
      if mode.inLine { LineBreak(s, i); } else { Kept(s, i); }
    } else if mode == CODE {
      ResumeEntered(s, i);
      Entered(s, i, i + width, after);
    } else {
      ResumeSteady(s, i, mode);
      Blanked(s, i, mode, i + width, after);
    }
  }

  lemma AtEnd(s: string, mode: Mode)
    ensures mode.Rest(s, |s|) == []
  {
    ClosesEnd(s, mode.depth);
  }

  /** One scanner step extends the finished output by what it consumed. */
  lemma Advance(s: string, was: string, now: string, i: nat, j: nat, before: Mode, after: Mode, kept: bool)
    requires i <= j <= |s| == |was| && was[i..] == s[i..]
    requires now == if kept then was else was[..i] + Blanks(was[i..j]) + was[j..]
    requires before.Rest(s, i) == (if kept then s[i..j] else Blanks(s[i..j])) + after.Rest(s, j)
    ensures now[j..] == s[j..]
    ensures was[..i] + before.Rest(s, i) == now[..j] + after.Rest(s, j)
  {
    hide Code, Blanks;
    assert was[i..j] == was[i..][..j - i] == s[i..j];
    assert kept ==> was == was[..i] + was[i..j] + was[j..];
    Shift(s, was, now, i, j, if kept then s[i..j] else Blanks(s[i..j]), before.Rest(s, i), after.Rest(s, j));
  }

  /** Moving a finished piece of output from what is still to come to what is done. */
  lemma Shift(s: string, was: string, now: string, i: nat, j: nat, piece: string, rest: string, rest': string)
    requires i <= j <= |s| == |was| && was[i..] == s[i..] && |piece| == j - i
    requires now == was[..i] + piece + was[j..] && rest == piece + rest'
    ensures now[j..] == s[j..] && was[..i] + rest == now[..j] + rest'
  {
    assert was[j..] == was[i..][j - i..] == s[j..];
    assert now[..j] == was[..i] + piece;
  }

  method BlankOut(result: array<char>, i: nat, j: nat)
    requires i <= j <= result.Length
    modifies result
    ensures result[..] == old(result[..i]) + Blanks(old(result[i..j])) + old(result[j..])
  {
    ghost var before := result[..];
    for k := i to j
      invariant forall x :: 0 <= x < i || k <= x < result.Length ==> result[x] == before[x]
      invariant forall x :: i <= x < k ==> result[x] == Blank(before[x])
    {
      result[k] := Blank(result[k]);
    }
    PiecesBlanked(before, result[..], i, j);
  }

  lemma PiecesBlanked(before: string, after: string, i: nat, j: nat)
    requires i <= j <= |before| == |after|
    requires forall x :: 0 <= x < i || j <= x < |before| ==> after[x] == before[x]
    requires forall x :: i <= x < j ==> after[x] == Blank(before[x])
    ensures after == before[..i] + Blanks(before[i..j]) + before[j..]
  {
    hide Blank;
    forall x | i <= x < j ensures after[x] == Blanks(before[i..j])[x - i] {
      assert before[i..j][x - i] == before[x];
    }
  }

  lemma StartRest(s: string)
    ensures CODE.Rest(s, 0) == Strip(s)
  {
    assert CODE.Rest(s, 0) == Code(s, 0);
  }

  method StripCommentsAndStrings(source: string) returns (r: string)
    ensures r == Strip(source)
  {
    hide Code, Blanks, Opens, Strip, Mode.Rest;
    var n := |source|;
    var result := new char[n](i requires 0 <= i < n => source[i]);
    var index, depth, inString, inLine := 0, 0, false, false;
    StartRest(source);
    while index < n
      invariant index <= n && Mode(depth, inString, inLine).Valid()
      invariant result[..][index..] == source[index..]
      invariant Strip(source) == result[..][..index] + Mode(depth, inString, inLine).Rest(source, index)
    {
      ghost var before, start, was := Mode(depth, inString, inLine), index, result[..];
      TransitionRest(source, index, before);
      if inLine {
        if source[index] == '\n' {
          inLine := false;
        } else {
          BlankOut(result, index, index + 1);
        }
        index := index + 1;
      } else if depth > 0 {
        if Opens(source, index, '/', '-') {
          BlankOut(result, index, index + 2);
          depth, index := depth + 1, index + 2;
        } else if Opens(source, index, '-', '/') {
          BlankOut(result, index, index + 2);
          depth, index := depth - 1, index + 2;
        } else {
          BlankOut(result, index, index + 1);
          index := index + 1;
        }
      } else if inString {
        if source[index] == '\\' && index + 1 < n {
          BlankOut(result, index, index + 2);
          index := index + 2;
        } else {
          BlankOut(result, index, index + 1);
          inString := source[index] != '"';
          index := index + 1;
        }
      } else if Opens(source, index, '-', '-') {
        BlankOut(result, index, index + 2);
        inLine, index := true, index + 2;
      } else if Opens(source, index, '/', '-') {
        BlankOut(result, index, index + 2);
        depth, index := 1, index + 2;
      } else if source[index] == '"' {
        BlankOut(result, index, index + 1);
        inString, index := true, index + 1;
      } else {
        index := index + 1;
      }
      Advance(source, was, result[..], start, index, before, Mode(depth, inString, inLine),
              Transition(source, start, before).2);
    }
    AtEnd(source, Mode(depth, inString, inLine));
    r := result[..];
  }
}
