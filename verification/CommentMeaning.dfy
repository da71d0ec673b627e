/** What survives the comment-stripping pipeline: every character outside
    comments, line by line and for whole files. */
module CommentMeaning {
  import opened Wrappers
  import opened CommentFilter

  // ---------- block comments ----------

  lemma {:induction false} AfterCloseAt(b: string, c: string)
    requires !HasPair(b + "*", '*', '/')
    ensures AfterClose(b + "*/" + c) == c
  {
    var s := b + "*/" + c;
    if b == "" {
      assert s == "*/" + c && s[2..] == c;
    } else {
      PairTail(b + "*", '*', '/', 1);
      assert (b + "*")[1..] == b[1..] + "*" && s[1..] == b[1..] + "*/" + c;
      assert (b + "*")[0] == s[0] && (b + "*")[0 + 1] == s[1];
      AfterCloseAt(b[1..], c);
    }
  }

  lemma {:induction false} AfterCloseNever(b: string)
    requires !HasPair(b, '*', '/')
    ensures AfterClose(b) == ""
  {
    if b != "" {
      FirstPair(b, '*', '/');
      PairTail(b, '*', '/', 1);
      AfterCloseNever(b[1..]);
    }
  }

  /** Text that opens no comment stays in front of what follows it. */
  lemma {:induction false} StripPrefix(a: string, t: string)
    requires t != "" && !HasPair(a + [t[0]], '/', '*')
    ensures Strip(a + t) == a + Strip(t) && LiveSlash(a + t) == LiveSlash(t)
  {
    if a == "" {
      assert a + t == t && "" + Strip(t) == Strip(t);
    } else {
      var s, p, rest := a + t, a + [t[0]], a[1..];
      PairTail(p, '/', '*', 1);
      FirstPair(p, '/', '*');
      assert p[1..] == rest + [t[0]] && s[1..] == rest + t && p[1] == s[1];
      StripPrefix(rest, t);
      assert Strip(s) == [a[0]] + Strip(s[1..]);
      assert a == [a[0]] + rest;
      Associative([a[0]], rest, Strip(t));
    }
  }

  lemma OpensAfter(a: string, t: string)
    requires !HasPair(a, '/', '*') && t != "" && t[0] == '/'
    ensures !HasPair(a + [t[0]], '/', '*')
  {
    var p := a + [t[0]];
    forall i | 0 <= i < |p| - 1
      ensures !(p[i] == '/' && p[i + 1] == '*')
    {
      if i < |a| - 1 {
        assert !(a[i] == '/' && a[i + 1] == '*');
      }
    }
  }

  /** A comment reaches from the first open-comment to the first close-comment
      behind it; what is before it stays, and what is behind it is stripped on
      its own. */
  lemma StripComment(a: string, b: string, c: string)
    requires !HasPair(a, '/', '*') && !HasPair(b + "*", '*', '/')
    ensures Strip(a + ("/*" + (b + "*/" + c))) == a + Strip(c)
    ensures LiveSlash(a + ("/*" + (b + "*/" + c))) == LiveSlash(c)
  {
    var t := "/*" + (b + "*/" + c);
    OpensAfter(a, t);
    StripPrefix(a, t);
    assert t[2..] == b + "*/" + c;
    AfterCloseAt(b, c);
  }

  /** A comment that is never closed reaches to the end. */
  lemma StripUnclosed(a: string, b: string)
    requires !HasPair(a, '/', '*') && !HasPair(b, '*', '/')
    ensures Strip(a + ("/*" + b)) == a && !LiveSlash(a + ("/*" + b))
  {
    var t := "/*" + b;
    OpensAfter(a, t);
    StripPrefix(a, t);
    assert t[2..] == b && a + "" == a;
    AfterCloseNever(b);
  }

  // ---------- lines ----------

  predicate Hash(line: string) {
    line != "" && line[0] == '#'
  }

  /** A line as a file yields it, and what is left of it: the text before its
      first two slashes, and its newline. */
  ghost predicate CutsTo(line: string, cut: string) {
    exists body: string, newline: string, i: nat ::
      && line == body + newline && '\n' !in body && newline in {"", "\n"}
      && i <= |body| && (forall j | 0 <= j < i :: !Starts(body[j..], '/', '/'))
      && (i < |body| ==> Starts(body[i..], '/', '/'))
      && cut == body[..i] + newline
  }

  /** A line has no newline but possibly its last character. */
  predicate OneLine(line: string) {
    forall k | 0 <= k < |line| - 1 :: line[k] != '\n'
  }

  lemma {:induction false} FirstSlashes(body: string) returns (i: nat)
    ensures i <= |body| && (forall j | 0 <= j < i :: !Starts(body[j..], '/', '/'))
    ensures i < |body| ==> Starts(body[i..], '/', '/')
  {
    i := 0;
    while i < |body| && !Starts(body[i..], '/', '/')
      invariant i <= |body| && forall j | 0 <= j < i :: !Starts(body[j..], '/', '/')
    {
      i := i + 1;
    }
  }

  lemma LineCuts(line: string)
    requires OneLine(line)
    ensures CutsTo(line, CutLine(line))
  {
    var last := line != "" && line[|line| - 1] == '\n';
    var body := if last then line[..|line| - 1] else line;
    var newline := if last then "\n" else "";
    assert line == body + newline;
    var i := FirstSlashes(body);
    CutLineMeaning(body, newline, i);
  }

  /** Line `i` of the first `n` does not begin with `#` and was cut to `cut`. */
  ghost predicate KeptAt(lines: seq<string>, n: nat, i: nat, cut: string) {
    i < n <= |lines| && !Hash(lines[i]) && CutsTo(lines[i], cut)
  }

  predicate Increasing(at: seq<nat>) {
    forall j, k | 0 <= j < k < |at| :: at[j] < at[k]
  }

  /** `at` has the place of every line among the first `n` that does not begin
      with `#`. */
  ghost predicate Covers(lines: seq<string>, n: nat, at: seq<nat>) {
    n <= |lines| && forall i | 0 <= i < n && !Hash(lines[i]) :: i in at
  }

  /** `kept` are exactly those of the first `n` lines that do not begin with `#`,
      in their order, each cut before its first two slashes; `at` gives their
      places. */
  ghost predicate Picks(lines: seq<string>, n: nat, kept: seq<string>, at: seq<nat>) {
    && |at| == |kept| && (forall j | 0 <= j < |at| :: KeptAt(lines, n, at[j], kept[j]))
    && Increasing(at) && Covers(lines, n, at)
  }

  lemma KeptAtLater(lines: seq<string>, n: nat, i: nat, cut: string)
    requires KeptAt(lines, n, i, cut) && n < |lines|
    ensures KeptAt(lines, n + 1, i, cut)
  {
  }

  lemma CoversLine(lines: seq<string>, n: nat, at: seq<nat>)
    requires n < |lines| && Covers(lines, n, at)
    ensures Covers(lines, n + 1, at + [n])
  {
    forall i | 0 <= i < n + 1 && !Hash(lines[i])
      ensures i in at + [n]
    {
      assert i < n ==> i in at;
      assert (at + [n])[|at|] == n;
    }
  }

  lemma PickHash(lines: seq<string>, n: nat, kept: seq<string>, at: seq<nat>)
    requires n < |lines| && Picks(lines, n, kept, at) && Hash(lines[n])
    ensures Picks(lines, n + 1, kept, at)
  {
    forall j | 0 <= j < |at|
      ensures KeptAt(lines, n + 1, at[j], kept[j])
    {
      KeptAtLater(lines, n, at[j], kept[j]);
    }
  }

  lemma PickLine(lines: seq<string>, n: nat, kept: seq<string>, at: seq<nat>, cut: string)
    requires n < |lines| && Picks(lines, n, kept, at) && KeptAt(lines, n + 1, n, cut)
    ensures Picks(lines, n + 1, kept + [cut], at + [n])
  {
    CoversLine(lines, n, at);
    var all, places := kept + [cut], at + [n];
    forall j | 0 <= j < |places|
      ensures KeptAt(lines, n + 1, places[j], all[j])
    {
      if j < |at| {
        assert KeptAt(lines, n, at[j], kept[j]);
        KeptAtLater(lines, n, at[j], kept[j]);
      }
    }
    forall j, k | 0 <= j < k < |places|
      ensures places[j] < places[k]
    {
      assert KeptAt(lines, n, at[j], kept[j]);
    }
  }

  lemma {:induction false} FirstLinesKept(lines: seq<string>, n: nat) returns (at: seq<nat>)
    requires n <= |lines| && forall i | 0 <= i < |lines| :: OneLine(lines[i])
    ensures Picks(lines, n, RemoveSingleLineComments(lines[..n]), at)
  {
    if n == 0 {
      assert lines[..0] == [];
      return [];
    }
    at := FirstLinesKept(lines, n - 1);
    var line, kept := lines[n - 1], RemoveSingleLineComments(lines[..n - 1]);
    assert lines[..n] == lines[..n - 1] + [line];
    RemoveAppend(lines[..n - 1], [line]);
    RemoveOne(line);
    if Hash(line) {
      PickHash(lines, n - 1, kept, at);
      assert kept + [] == kept;
    } else {
      LineCuts(line);
      PickLine(lines, n - 1, kept, at, CutLine(line));
      at := at + [n - 1];
    }
  }

  /** Of the lines of a file, the filter keeps exactly those that do not begin
      with `#`, in their order, each cut before its first two slashes. */
  lemma LinesKept(lines: seq<string>)
    requires forall i | 0 <= i < |lines| :: OneLine(lines[i])
    ensures exists at :: Picks(lines, |lines|, RemoveSingleLineComments(lines), at)
  {
    var at := FirstLinesKept(lines, |lines|);
    assert lines[..|lines|] == lines;
  }

  lemma RemoveOne(line: string)
    ensures RemoveSingleLineComments([line]) == if Hash(line) then [] else [CutLine(line)]
  {
    assert [line][1..] == [];
  }

  lemma {:induction false} RemoveAppend(a: seq<string>, b: seq<string>)
    ensures RemoveSingleLineComments(a + b) == RemoveSingleLineComments(a) + RemoveSingleLineComments(b)
  {
    if a == [] {
      assert a + b == b;
    } else {
      RemoveAppend(a[1..], b);
      assert (a + b)[0] == a[0] && (a + b)[1..] == a[1..] + b;
    }
  }

  // ---------- files ----------

  /** A line that begins with `#` makes no difference, wherever it stands. */
  lemma HashLinesVanish(a: seq<string>, line: string, b: seq<string>)
    requires Hash(line)
    ensures Pipeline(a + [line] + b) == Pipeline(a + b)
  {
    RemoveAppend(a + [line], b);
    RemoveAppend(a, [line]);
    RemoveOne(line);
    RemoveAppend(a, b);
    assert RemoveSingleLineComments(a) + [] == RemoveSingleLineComments(a);
  }

  lemma {:induction false} CutNothing(s: string)
    requires '/' !in s
    ensures CutLine(s) == s
  {
    if s != "" {
      CutNothing(s[1..]);
      assert s == [s[0]] + s[1..];
    }
  }

  lemma {:induction false} PlainLines(lines: seq<string>)
    requires forall i | 0 <= i < |lines| :: !Hash(lines[i]) && '/' !in lines[i]
    ensures RemoveSingleLineComments(lines) == lines
  {
    if lines != [] {
      assert !Hash(lines[0]);
      CutNothing(lines[0]);
      PlainLines(lines[1..]);
      assert lines == [lines[0]] + lines[1..];
    }
  }

  lemma {:induction false} StreamOfConcat(lines: seq<string>)
    ensures ToChar(lines) == Blank(Concat(lines))
  {
    if lines != [] {
      StreamOfConcat(lines[1..]);
    }
  }

  lemma {:induction false} NoSlashInConcat(lines: seq<string>)
    requires forall i | 0 <= i < |lines| :: '/' !in lines[i]
    ensures '/' !in Concat(lines)
  {
    if lines != [] {
      NoSlashInConcat(lines[1..]);
    }
  }

  /** A file without `#` lines and without slashes reaches the chunker character
      by character, its newlines turned into blanks. */
  lemma PlainFile(lines: seq<string>)
    requires forall i | 0 <= i < |lines| :: !Hash(lines[i]) && '/' !in lines[i]
    ensures Pipeline(lines) == Blank(Concat(lines)) && |Pipeline(lines)| == |Concat(lines)|
    ensures forall i | 0 <= i < |Concat(lines)| ::
              Pipeline(lines)[i] == if Concat(lines)[i] == '\n' then ' ' else Concat(lines)[i]
  {
    PlainLines(lines);
    StreamOfConcat(lines);
    NoSlashInConcat(lines);
    var s := Blank(Concat(lines));
    assert '/' !in s;
    StripOfClean(s);
  }
}
