/** The comment-stripping pipeline of the state-diagram generator. */
module CommentFilter {
  import opened Wrappers

  // ---------- what stripping block comments means ----------

  predicate Starts(s: string, a: char, b: char) {
    |s| >= 2 && s[0] == a && s[1] == b
  }

  /** What follows the first close-comment, or nothing. */
  function AfterClose(s: string): (r: string)
    ensures |r| <= |s|
  {
    if s == "" then "" else if Starts(s, '*', '/') then s[2..] else AfterClose(s[1..])
  }

  lemma {:induction false} AfterCloseIsSuffix(s: string)
    ensures AfterClose(s) == s[|s| - |AfterClose(s)|..]
  {
    if s != "" && !Starts(s, '*', '/') {
      AfterCloseIsSuffix(s[1..]);
    }
  }

  /** Delete from the leftmost open-comment to the first close-comment after
      it, again and again; an unclosed comment deletes the rest. */
  function Strip(s: string): string
    decreases |s|
  {
    if s == "" then "" else if Starts(s, '/', '*') then Strip(AfterClose(s[2..])) else [s[0]] + Strip(s[1..])
  }

  /** The text ends in a slash that no comment swallows. */
  predicate LiveSlash(s: string)
    decreases |s|
  {
    if s == "" then false
    else if Starts(s, '/', '*') then LiveSlash(AfterClose(s[2..]))
    else if |s| == 1 then s[0] == '/'
    else LiveSlash(s[1..])
  }

  lemma {:induction false} LiveSlashIsLast(s: string)
    requires LiveSlash(s)
    ensures Strip(s) != "" && Strip(s)[|Strip(s)| - 1] == '/'
    decreases |s|
  {
    if Starts(s, '/', '*') {
      LiveSlashIsLast(AfterClose(s[2..]));
    } else if |s| > 1 {
      LiveSlashIsLast(s[1..]);
      var tail := Strip(s[1..]);
      assert Strip(s) == [s[0]] + tail;
      assert ([s[0]] + tail)[|tail|] == tail[|tail| - 1];
    } else {
      assert s[1..] == "";
    }
  }

  /** What the filter yields: a final live slash is still pending and is lost. */
  function Filtered(s: string): string {
    if LiveSlash(s) then (LiveSlashIsLast(s); Strip(s)[..|Strip(s)| - 1]) else Strip(s)
  }

  // ---------- the filter ----------

  lemma TextAt(s: string, j: nat)
    requires j < |s|
    ensures Starts(s[j..], '/', '*') ==>
              && Strip(s[j..]) == Strip(AfterClose(s[j + 2..]))
              && LiveSlash(s[j..]) == LiveSlash(AfterClose(s[j + 2..]))
    ensures !Starts(s[j..], '/', '*') ==>
              && Strip(s[j..]) == [s[j]] + Strip(s[j + 1..])
              && LiveSlash(s[j..]) == if j + 1 == |s| then s[j] == '/' else LiveSlash(s[j + 1..])
  {
    assert s[j..][1..] == s[j + 1..];
    if j + 2 <= |s| {
      assert s[j..][2..] == s[j + 2..];
    }
  }

  lemma CommentAt(s: string, j: nat)
    requires j < |s|
    ensures AfterClose(s[j..]) == if Starts(s[j..], '*', '/') then s[j + 2..] else AfterClose(s[j + 1..])
  {
    assert s[j..][1..] == s[j + 1..];
    if j + 2 <= |s| {
      assert s[j..][2..] == s[j + 2..];
    }
  }

  /** The character just read, if it may open or close a comment. */
  datatype Saw = Nothing | Mark(c: char)

  datatype Mode = Mode(saw: Saw, inComment: bool)

  /** One character: the next mode, and what is yielded. */
  function Step(m: Mode, c: char): (Mode, string) {
    if m.inComment then
      (Mode(if c == '*' then Mark(c) else Nothing, !(m.saw == Mark('*') && c == '/')), "")
    else if m.saw == Mark('/') && c == '*' then
      (Mode(Nothing, true), "")
    else
      (Mode(if c == '/' then Mark(c) else Nothing, false),
       (if m.saw.Mark? then [m.saw.c] else "") + (if c == '/' then "" else [c]))
  }

  /** What is yielded from position `i` on. */
  function Yield(s: string, i: nat, m: Mode): string
    requires i <= |s|
    decreases |s| - i
  {
    if i == |s| then "" else Step(m, s[i]).1 + Yield(s, i + 1, Step(m, s[i]).0)
  }

  method RemoveMultilineComments(chars: string) returns (out: string)
    ensures out == Filtered(chars)
    ensures Strip(chars) == out + if LiveSlash(chars) then "/" else ""
  {
    out := "";
    var saw, inComment := Nothing, false;
    for i := 0 to |chars|
      invariant saw.Mark? ==> saw.c == if inComment then '*' else '/'
      invariant out + Yield(chars, i, Mode(saw, inComment)) == Yield(chars, 0, Mode(Nothing, false))
    {
      var c := chars[i];
      ghost var next := Step(Mode(saw, inComment), c);
      ghost var yielded := out + next.1;
      Associative(out, next.1, Yield(chars, i + 1, next.0));
      if inComment {
        if saw == Mark('*') {
          if c == '/' {
            inComment := false;
          }
          saw := Nothing;
        }
        if c == '*' {
          saw := Mark('*');
        }
        assert out == yielded && Mode(saw, inComment) == next.0;
        continue;
      }
      if saw == Mark('/') {
        if c == '*' {
          inComment := true;
          saw := Nothing;
          assert out == yielded && Mode(saw, inComment) == next.0;
          continue;
        }
        out := out + [saw.c];
        saw := Nothing;
      }
      if c == '/' {
        saw := Mark('/');
        assert out == yielded && Mode(saw, inComment) == next.0;
        continue;
      }
      out := out + [c];
      assert out == yielded && Mode(saw, inComment) == next.0;
    }
    YieldsStripped(chars);
    YieldsFiltered(chars);
  }

  /** Where the text not yet accounted for begins: at the mark, if there is one. */
  function Resume(i: nat, m: Mode): int {
    if m.saw.Mark? then i - 1 else i
  }

  /** The mark is the last character read, and could open or close a comment. */
  predicate Marked(s: string, i: nat, m: Mode) {
    i <= |s| && (m.saw.Mark? ==> i > 0 && m.saw.c == s[i - 1] && m.saw.c == if m.inComment then '*' else '/')
  }

  function Unread(s: string, i: nat, m: Mode): string
    requires Marked(s, i, m)
  {
    if m.inComment then AfterClose(s[Resume(i, m)..]) else s[Resume(i, m)..]
  }

  predicate Agrees(s: string, i: nat, m: Mode)
    requires Marked(s, i, m)
  {
    Yield(s, i, m) + (if LiveSlash(Unread(s, i, m)) then "/" else "") == Strip(Unread(s, i, m))
  }

  lemma AgreesAtEnd(s: string, m: Mode)
    requires Marked(s, |s|, m)
    ensures Agrees(s, |s|, m)
  {
    var u := Unread(s, |s|, m);
    if m.saw.Nothing? {
      assert s[|s|..] == "" && u == "";
    } else {
      assert s[|s| - 1..] == [m.saw.c] && [m.saw.c][1..] == "";
    }
  }

  lemma SameUnread(s: string, i: nat, m: Mode)
    requires i < |s| && m.inComment && Marked(s, i, m)
    ensures Marked(s, i + 1, Step(m, s[i]).0) && Unread(s, i, m) == Unread(s, i + 1, Step(m, s[i]).0)
  {
    CommentAt(s, i);
    assert s[i..][0] == s[i];
    if m.saw.Mark? {
      CommentAt(s, i - 1);
      assert s[i - 1..][0] == s[i - 1] && s[i - 1..][1] == s[i];
    }
  }

  /** Inside a comment nothing is yielded; only the mode moves. */
  lemma AgreesInComment(s: string, i: nat, m: Mode)
    requires i < |s| && m.inComment && Marked(s, i, m)
    ensures Marked(s, i + 1, Step(m, s[i]).0)
    ensures Agrees(s, i + 1, Step(m, s[i]).0) ==> Agrees(s, i, m)
  {
    var next := Step(m, s[i]).0;
    SameUnread(s, i, m);
    assert "" + Yield(s, i + 1, next) == Yield(s, i + 1, next);
  }

  lemma AgreesOpening(s: string, i: nat, m: Mode)
    requires i < |s| && !m.inComment && m.saw.Mark? && Marked(s, i, m) && s[i] == '*'
    ensures Marked(s, i + 1, Step(m, s[i]).0)
    ensures Agrees(s, i + 1, Step(m, s[i]).0) ==> Agrees(s, i, m)
  {
    TextAt(s, i - 1);
    assert "" + Yield(s, i + 1, Step(m, s[i]).0) == Yield(s, i + 1, Step(m, s[i]).0);
  }

  /** A character outside comments, with no mark before it. */
  lemma AgreesPlain(s: string, i: nat)
    requires i < |s|
    ensures Marked(s, i, Mode(Nothing, false)) && Marked(s, i + 1, Step(Mode(Nothing, false), s[i]).0)
    ensures Agrees(s, i + 1, Step(Mode(Nothing, false), s[i]).0) ==> Agrees(s, i, Mode(Nothing, false))
  {
    var next := Step(Mode(Nothing, false), s[i]);
    assert next.1 == if s[i] == '/' then "" else [s[i]];
    if s[i] == '/' {
      assert "" + Yield(s, i + 1, next.0) == Yield(s, i + 1, next.0);
    } else {
      TextAt(s, i);
      assert s[i..][0] == s[i];
      var more := if LiveSlash(s[i + 1..]) then "/" else "";
      Associative([s[i]], Yield(s, i + 1, next.0), more);
    }
  }

  /** A slash that turns out to be plain is yielded, and reading goes on as
      without it. */
  lemma AgreesAfterSlash(s: string, i: nat, m: Mode)
    requires i < |s| && !m.inComment && m.saw.Mark? && Marked(s, i, m) && s[i] != '*'
    ensures Agrees(s, i, Mode(Nothing, false)) ==> Agrees(s, i, m)
  {
    var plain := Step(Mode(Nothing, false), s[i]);
    assert Step(m, s[i]).0 == plain.0 && Step(m, s[i]).1 == "/" + plain.1;
    var tail := Yield(s, i + 1, plain.0);
    Associative("/", plain.1, tail);
    TextAt(s, i - 1);
    assert s[i - 1..][1] == s[i];
    var more := if LiveSlash(s[i..]) then "/" else "";
    Associative("/", plain.1 + tail, more);
  }

  lemma {:induction false} AgreesAlways(s: string, i: nat, m: Mode)
    requires Marked(s, i, m)
    ensures Agrees(s, i, m)
    decreases |s| - i
  {
    if i == |s| {
      AgreesAtEnd(s, m);
    } else if m.inComment {
      AgreesInComment(s, i, m);
      AgreesAlways(s, i + 1, Step(m, s[i]).0);
    } else if m.saw.Mark? && s[i] == '*' {
      AgreesOpening(s, i, m);
      AgreesAlways(s, i + 1, Step(m, s[i]).0);
    } else {
      AgreesPlain(s, i);
      AgreesAlways(s, i + 1, Step(Mode(Nothing, false), s[i]).0);
      if m.saw.Mark? {
        AgreesAfterSlash(s, i, m);
      }
    }
  }

  lemma YieldsStripped(s: string)
    ensures Strip(s) == Yield(s, 0, Mode(Nothing, false)) + if LiveSlash(s) then "/" else ""
  {
    AgreesAlways(s, 0, Mode(Nothing, false));
    assert s[0..] == s;
  }

  lemma YieldsFiltered(s: string)
    ensures Yield(s, 0, Mode(Nothing, false)) == Filtered(s)
  {
    YieldsStripped(s);
    var y := Yield(s, 0, Mode(Nothing, false));
    assert (y + "/")[..|y|] == y && y + "" == y;
  }

  // ---------- what the whole pipeline yields ----------

  predicate HasPair(s: string, a: char, b: char) {
    exists i | 0 <= i < |s| - 1 :: s[i] == a && s[i + 1] == b
  }

  /** Neither kind of comment is left. */
  predicate Clean(s: string) {
    !HasPair(s, '/', '/') && !HasPair(s, '/', '*')
  }

  lemma PairAt(s: string, a: char, b: char, i: nat)
    requires !HasPair(s, a, b) && i + 1 < |s|
    ensures s[i] != a || s[i + 1] != b
  {
  }

  lemma PairTail(s: string, a: char, b: char, j: nat)
    requires !HasPair(s, a, b) && j <= |s|
    ensures !HasPair(s[j..], a, b)
  {
    forall i | 0 <= i < |s[j..]| - 1
      ensures !(s[j..][i] == a && s[j..][i + 1] == b)
    {
      assert !(s[j + i] == a && s[j + i + 1] == b);
    }
  }

  lemma PairCons(c: char, s: string, a: char, b: char)
    requires !HasPair(s, a, b) && !(s != "" && c == a && s[0] == b)
    ensures !HasPair([c] + s, a, b)
  {
    forall i | 0 <= i < |[c] + s| - 1
      ensures !(([c] + s)[i] == a && ([c] + s)[i + 1] == b)
    {
      if i > 0 {
        assert !(s[i - 1] == a && s[i] == b);
      }
    }
  }

  lemma FirstPair(s: string, a: char, b: char)
    requires !HasPair(s, a, b)
    ensures !Starts(s, a, b)
  {
    if |s| >= 2 {
      assert !(s[0] == a && s[0 + 1] == b);
    }
  }

  lemma AfterComment(s: string)
    requires !HasPair(s, '/', '/') && Starts(s, '/', '*')
    ensures !HasPair(AfterClose(s[2..]), '/', '/')
    ensures Strip(AfterClose(s[2..])) == Strip(s) && LiveSlash(AfterClose(s[2..])) == LiveSlash(s)
  {
    var r := AfterClose(s[2..]);
    AfterCloseIsSuffix(s[2..]);
    assert r == s[2..][|s[2..]| - |r|..] == s[|s| - |r|..];
    PairTail(s, '/', '/', |s| - |r|);
  }

  /** Stripping a text without `//` leaves neither `//` nor an open-comment:
      no comment was glued to a slash. */
  lemma {:induction false} StripClean(s: string)
    requires !HasPair(s, '/', '/')
    ensures Clean(Strip(s))
    decreases |s|
  {
    if s == "" {
    } else if Starts(s, '/', '*') {
      AfterComment(s);
      StripClean(AfterClose(s[2..]));
    } else {
      PairTail(s, '/', '/', 1);
      StripClean(s[1..]);
      FirstPair(s, '/', '/');
      var tail := Strip(s[1..]);
      if s[0] == '/' && |s| > 1 {
        assert tail == [s[1]] + Strip(s[1..][1..]);
      }
      PairCons(s[0], tail, '/', '/');
      PairCons(s[0], tail, '/', '*');
    }
  }

  lemma {:induction false} StripOfClean(s: string)
    requires !HasPair(s, '/', '*')
    ensures Strip(s) == s
    ensures LiveSlash(s) <==> s != "" && s[|s| - 1] == '/'
    decreases |s|
  {
    FirstPair(s, '/', '*');
    if s != "" {
      var t := s[1..];
      PairTail(s, '/', '*', 1);
      StripOfClean(t);
      assert Strip(s) == [s[0]] + t == s;
      assert |s| > 1 ==> t[|t| - 1] == s[|s| - 1];
    }
  }

  lemma PairPrefix(s: string, a: char, b: char, n: nat)
    requires !HasPair(s, a, b) && n <= |s|
    ensures !HasPair(s[..n], a, b)
  {
    forall i | 0 <= i < n - 1
      ensures !(s[..n][i] == a && s[..n][i + 1] == b)
    {
      assert !(s[i] == a && s[i + 1] == b);
    }
  }

  lemma FilteredPrefix(s: string)
    ensures |Filtered(s)| <= |Strip(s)| && Filtered(s) == Strip(s)[..|Filtered(s)|]
    ensures LiveSlash(s) ==> |Strip(s)| == |Filtered(s)| + 1 && Strip(s)[|Filtered(s)|] == '/'
  {
    if LiveSlash(s) {
      LiveSlashIsLast(s);
    }
  }

  // ---------- when filtering twice is filtering once ----------

  /** Without the whole comments at its front. */
  function Skip(s: string): string
    decreases |s|
  {
    if Starts(s, '/', '*') then Skip(AfterClose(s[2..])) else s
  }

  /** Somewhere outside comments stands a slash with text after it, and once the
      comments right behind it are gone, nothing, a last slash, or a star
      follows. */
  predicate Unstable(s: string)
    decreases |s|
  {
    if s == "" then false
    else if Starts(s, '/', '*') then Unstable(AfterClose(s[2..]))
    else (s[0] == '/' && s[1..] != "" && Exposes(Skip(s[1..]))) || Unstable(s[1..])
  }

  predicate Exposes(s: string) {
    s == "" || s == "/" || s[0] == '*'
  }

  predicate EndsInSlash(s: string) {
    s != "" && s[|s| - 1] == '/'
  }

  /** A second pass finds something to do. */
  predicate Refilters(s: string) {
    HasPair(s, '/', '*') || EndsInSlash(s)
  }

  lemma FilteredCons(s: string)
    requires |s| > 1 && !Starts(s, '/', '*')
    ensures Filtered(s) == [s[0]] + Filtered(s[1..])
  {
    if LiveSlash(s) {
      LiveSlashIsLast(s[1..]);
      var tail := Strip(s[1..]);
      assert ([s[0]] + tail)[..|tail|] == [s[0]] + tail[..|tail| - 1];
    }
  }

  lemma FilteredOne(s: string)
    requires |s| == 1
    ensures Filtered(s) == if s == "/" then "" else s
  {
    assert s[1..] == "" && Strip(s) == [s[0]] == s;
    assert s == "/" ==> s[..0] == "";
  }

  /** What a filtered text begins with shows behind the comments at its front. */
  lemma {:induction false} FilteredFront(s: string)
    ensures Filtered(s) == Filtered(Skip(s))
    ensures Filtered(s) == "" || Filtered(s)[0] == '*' <==> Exposes(Skip(s))
    decreases |s|
  {
    if Starts(s, '/', '*') {
      FilteredFront(AfterClose(s[2..]));
    } else if |s| > 1 {
      FilteredCons(s);
    } else if |s| == 1 {
      FilteredOne(s);
    }
  }

  lemma RefiltersCons(c: char, s: string)
    ensures Refilters([c] + s) <==> (c == '/' && (s == "" || s[0] == '*')) || Refilters(s)
  {
    var t := [c] + s;
    if HasPair(s, '/', '*') {
      var i :| 0 <= i < |s| - 1 && s[i] == '/' && s[i + 1] == '*';
      assert t[i + 1] == '/' && t[i + 1 + 1] == '*';
    } else if s != "" && c == '/' && s[0] == '*' {
      assert t[0] == '/' && t[0 + 1] == '*';
    } else {
      PairCons(c, s, '/', '*');
    }
    assert s != "" ==> t[|t| - 1] == s[|s| - 1];
  }

  lemma {:induction false} FilteredRefilters(s: string)
    ensures Refilters(Filtered(s)) <==> Unstable(s)
    decreases |s|
  {
    if s == "" {
    } else if Starts(s, '/', '*') {
      FilteredRefilters(AfterClose(s[2..]));
    } else if |s| == 1 {
      FilteredOne(s);
    } else {
      var t := s[1..];
      FilteredRefilters(t);
      FilteredCons(s);
      FilteredFront(t);
      RefiltersCons(s[0], Filtered(t));
    }
  }

  lemma {:induction false} StripShrinks(s: string)
    ensures |Strip(s)| <= |s|
    ensures HasPair(s, '/', '*') ==> |Strip(s)| < |s|
    decreases |s|
  {
    if s == "" {
    } else if Starts(s, '/', '*') {
      StripShrinks(AfterClose(s[2..]));
    } else {
      var t := s[1..];
      StripShrinks(t);
      if !HasPair(t, '/', '*') {
        PairCons(s[0], t, '/', '*');
        assert s == [s[0]] + t;
      }
    }
  }

  /** Filtering changes exactly the texts with an open-comment or a last slash. */
  lemma FilteredSame(s: string)
    ensures Filtered(s) == s <==> !Refilters(s)
  {
    FilteredPrefix(s);
    StripShrinks(s);
    if !HasPair(s, '/', '*') {
      StripOfClean(s);
    }
  }

  /** For every text: filtering twice is filtering once exactly when the text
      is not unstable. */
  lemma FilterIdempotentIff(s: string)
    ensures Filtered(Filtered(s)) == Filtered(s) <==> !Unstable(s)
  {
    FilteredRefilters(s);
    FilteredSame(Filtered(s));
  }

  lemma {:induction false} StableWithoutSlashes(s: string)
    requires !HasPair(s, '/', '/')
    ensures !Unstable(s)
    decreases |s|
  {
    if Starts(s, '/', '*') {
      AfterComment(s);
      StableWithoutSlashes(AfterClose(s[2..]));
    } else if s != "" {
      FirstPair(s, '/', '/');
      PairTail(s, '/', '/', 1);
      StableWithoutSlashes(s[1..]);
    }
  }

  /** On a text without `//` the filter's output is free of both kinds of
      comment, and filtering it again changes nothing. */
  lemma FilterIdempotent(s: string)
    requires !HasPair(s, '/', '/')
    ensures Clean(Filtered(s))
    ensures Filtered(Filtered(s)) == Filtered(s)
  {
    StripClean(s);
    FilteredPrefix(s);
    PairPrefix(Strip(s), '/', '/', |Filtered(s)|);
    PairPrefix(Strip(s), '/', '*', |Filtered(s)|);
    StableWithoutSlashes(s);
    FilterIdempotentIff(s);
  }

  // With two slashes in a row it can fail: this text filters to an
  // open-comment, which filters to nothing.
  lemma FilterNotIdempotent()
    ensures Filtered("//**/*") == "/*"
    ensures Filtered("/*") == ""
  {
    var s := "//**/*";
    assert s[1..] == "/**/*" && "/**/*"[2..] == "*/*" && "*/*"[2..] == "*" && "*"[1..] == "" && "/*"[2..] == "";
    assert AfterClose("*/*") == "*";
    assert Strip("*") == "*" && !LiveSlash("*");
    assert Strip("/**/*") == "*" && !LiveSlash("/**/*");
    assert Strip(s) == "/" + "*";
  }

  // ---------- the earlier stages ----------

  function FromNewline(s: string): string {
    if s == "" || s[0] == '\n' then s else FromNewline(s[1..])
  }

  lemma {:induction false} FromNewlineShrinks(s: string)
    ensures |FromNewline(s)| <= |s| && FromNewline(s) == s[|s| - |FromNewline(s)|..]
    ensures FromNewline(s) != "" ==> FromNewline(s)[0] == '\n'
    ensures s != "" && s[|s| - 1] == '\n' ==> FromNewline(s) != ""
  {
    if s != "" && s[0] != '\n' {
      FromNewlineShrinks(s[1..]);
    }
  }

  /** Cut every `//` up to the end of its line. */
  function CutLine(s: string): string
    decreases |s|
  {
    if s == "" then ""
    else if Starts(s, '/', '/') then (FromNewlineShrinks(s[1..]); CutLine(FromNewline(s[1..])))
    else [s[0]] + CutLine(s[1..])
  }

  /** On one line, with or without its newline, the text before the first `//`
      is what remains. */
  lemma {:induction false} CutLineMeaning(body: string, newline: string, i: nat)
    requires '\n' !in body && (newline == "" || newline == "\n")
    requires i <= |body| && (forall j | 0 <= j < i :: !Starts(body[j..], '/', '/'))
    requires i < |body| ==> Starts(body[i..], '/', '/')
    ensures CutLine(body + newline) == body[..i] + newline
    decreases |body|
  {
    var s := body + newline;
    if body == "" {
      assert s == newline && newline[..0] == "" && (newline != "" ==> newline[1..] == "");
    } else if i == 0 {
      assert body[0..] == body && s[1..] == body[1..] + newline;
      FromNewlineOf(body[1..], newline);
      assert newline != "" ==> newline[1..] == "";
      assert Starts(s, '/', '/') && CutLine(newline) == newline;
      assert body[..0] + newline == newline;
    } else {
      assert !Starts(body[0..], '/', '/') && body[0..] == body;
      forall j | 0 <= j < i - 1
        ensures !Starts(body[1..][j..], '/', '/')
      {
        assert body[1..][j..] == body[j + 1..];
      }
      assert i < |body| ==> body[1..][i - 1..] == body[i..];
      CutLineMeaning(body[1..], newline, i - 1);
      assert s[1..] == body[1..] + newline;
      assert body[..i] == [body[0]] + body[1..][..i - 1];
    }
  }

  lemma {:induction false} FromNewlineOf(body: string, newline: string)
    requires '\n' !in body && (newline == "" || newline == "\n")
    ensures FromNewline(body + newline) == newline
  {
    if body == "" {
      assert body + newline == newline;
    } else {
      assert (body + newline)[1..] == body[1..] + newline;
      FromNewlineOf(body[1..], newline);
    }
  }

  /** Lines that begin with `#` are dropped. */
  function RemoveSingleLineComments(lines: seq<string>): seq<string> {
    if lines == [] then []
    else (if lines[0] != "" && lines[0][0] == '#' then [] else [CutLine(lines[0])])
         + RemoveSingleLineComments(lines[1..])
  }

  function Blank(s: string): (r: string)
    ensures |r| == |s| && forall i | 0 <= i < |s| :: r[i] == if s[i] == '\n' then ' ' else s[i]
  {
    seq(|s|, i requires 0 <= i < |s| => if s[i] == '\n' then ' ' else s[i])
  }

  function ToChar(lines: seq<string>): string {
    if lines == [] then "" else Blank(lines[0]) + ToChar(lines[1..])
  }

  /** Lines as a file yields them: all but the last end in a newline. */
  predicate FileLines(lines: seq<string>) {
    forall i | 0 <= i < |lines| - 1 :: lines[i] != "" && lines[i][|lines[i]| - 1] == '\n'
  }

  lemma {:induction false} CutLineClean(s: string)
    ensures !HasPair(CutLine(s), '/', '/')
    ensures CutLine(s) != "" ==> s != "" && (CutLine(s)[0] == s[0] || CutLine(s)[0] == '\n')
    ensures s != "" && s[|s| - 1] == '\n' ==> CutLine(s) != "" && CutLine(s)[|CutLine(s)| - 1] == '\n'
    decreases |s|
  {
    if s == "" {
    } else if Starts(s, '/', '/') {
      FromNewlineShrinks(s[1..]);
      CutLineClean(FromNewline(s[1..]));
    } else {
      CutLineClean(s[1..]);
      var tail := CutLine(s[1..]);
      PairCons(s[0], tail, '/', '/');
      assert CutLine(s) == [s[0]] + tail;
      if |s| > 1 && s[|s| - 1] == '\n' {
        assert s[1..][|s[1..]| - 1] == '\n';
        assert ([s[0]] + tail)[|tail|] == tail[|tail| - 1];
      }
    }
  }

  lemma PairAppend(x: string, y: string, a: char, b: char)
    requires !HasPair(x, a, b) && !HasPair(y, a, b)
    requires x != "" ==> x[|x| - 1] != a
    ensures !HasPair(x + y, a, b)
  {
    forall i | 0 <= i < |x + y| - 1
      ensures !((x + y)[i] == a && (x + y)[i + 1] == b)
    {
      if i < |x| - 1 {
        assert !(x[i] == a && x[i + 1] == b);
      } else if i >= |x| {
        assert !(y[i - |x|] == a && y[i - |x| + 1] == b);
      }
    }
  }

  lemma PairBlank(s: string)
    requires !HasPair(s, '/', '/')
    ensures !HasPair(Blank(s), '/', '/')
  {
    forall i | 0 <= i < |s| - 1
      ensures !(Blank(s)[i] == '/' && Blank(s)[i + 1] == '/')
    {
      assert !(s[i] == '/' && s[i + 1] == '/');
    }
  }

  /** Joined into one stream, cut lines still hold no `//`. */
  lemma {:induction false} StreamHasNoSlashes(lines: seq<string>)
    requires FileLines(lines)
    ensures !HasPair(ToChar(RemoveSingleLineComments(lines)), '/', '/')
  {
    if lines != [] {
      var rest := RemoveSingleLineComments(lines[1..]);
      assert FileLines(lines[1..]) by {
        forall i | 0 <= i < |lines[1..]| - 1
          ensures lines[1..][i] != "" && lines[1..][i][|lines[1..][i]| - 1] == '\n'
        {
          assert lines[1..][i] == lines[i + 1];
        }
      }
      StreamHasNoSlashes(lines[1..]);
      if lines[0] != "" && lines[0][0] == '#' {
        assert [] + rest == rest;
      } else {
        var cut := CutLine(lines[0]);
        assert ([cut] + rest)[0] == cut && ([cut] + rest)[1..] == rest;
        CutLineClean(lines[0]);
        PairBlank(cut);
        if |lines| == 1 {
          assert rest == [] && Blank(cut) + "" == Blank(cut);
        } else {
          assert lines[0] != "" && lines[0][|lines[0]| - 1] == '\n';
          PairAppend(Blank(cut), ToChar(rest), '/', '/');
        }
      }
    }
  }

  /** The characters that reach the chunker. */
  function Pipeline(lines: seq<string>): string {
    Filtered(ToChar(RemoveSingleLineComments(lines)))
  }

  lemma {:induction false} StripKeepsOut(s: string, c: char)
    requires c !in s
    ensures c !in Strip(s)
    decreases |s|
  {
    if s == "" {
    } else if Starts(s, '/', '*') {
      AfterCloseIsSuffix(s[2..]);
      StripKeepsOut(AfterClose(s[2..]), c);
    } else {
      StripKeepsOut(s[1..], c);
    }
  }

  lemma {:induction false} ToCharHasNoNewline(lines: seq<string>)
    ensures '\n' !in ToChar(lines)
  {
    if lines != [] {
      ToCharHasNoNewline(lines[1..]);
    }
  }

  lemma PipelineHasNoNewline(lines: seq<string>)
    ensures '\n' !in Pipeline(lines)
  {
    var s := ToChar(RemoveSingleLineComments(lines));
    ToCharHasNoNewline(RemoveSingleLineComments(lines));
    StripKeepsOut(s, '\n');
    FilteredPrefix(s);
  }

  /** For every file, what reaches the chunker holds no comment of either kind
      and would pass the comment filter unchanged. */
  lemma PipelineClean(lines: seq<string>)
    requires FileLines(lines)
    ensures Clean(Pipeline(lines)) && Filtered(Pipeline(lines)) == Pipeline(lines)
  {
    StreamHasNoSlashes(lines);
    FilterIdempotent(ToChar(RemoveSingleLineComments(lines)));
  }
}
