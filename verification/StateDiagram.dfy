/** How the state-diagram generator cuts its input into chunks and follows
    the nesting of braces with a stack of contexts. */
module StateDiagram {
  import opened Wrappers
  import CommentFilter
  import CommentMeaning

  // ---------- chunks ----------

  predicate Delimiter(c: char) {
    c == ';' || c == '{' || c == '}'
  }

  predicate NoDelimiter(s: string) {
    forall i | 0 <= i < |s| :: !Delimiter(s[i])
  }

  /** Exactly one delimiter, at the end. */
  predicate IsChunk(s: string) {
    s != "" && Delimiter(s[|s| - 1]) && forall i | 0 <= i < |s| - 1 :: !Delimiter(s[i])
  }

  function StripNewlines(s: string): string {
    if s != "" && s[0] == '\n' then StripNewlines(s[1..]) else s
  }

  /** Newlines are taken off the front, and nothing else. */
  lemma {:induction false} StripNewlinesMeaning(s: string) returns (n: nat)
    ensures n <= |s| && StripNewlines(s) == s[n..] && (n < |s| ==> s[n] != '\n')
    ensures forall i | 0 <= i < n :: s[i] == '\n'
  {
    if s != "" && s[0] == '\n' {
      var m := StripNewlinesMeaning(s[1..]);
      n := m + 1;
      assert s[1..][m..] == s[n..];
      forall i | 0 <= i < n
        ensures s[i] == '\n'
      {
        assert i > 0 ==> s[i] == s[1..][i - 1];
      }
    } else {
      n := 0;
    }
  }

  ghost predicate Chunking(chars: string, raw: seq<string>, rest: string) {
    (forall i | 0 <= i < |raw| :: IsChunk(raw[i])) && NoDelimiter(rest) && chars == Concat(raw) + rest
  }

  /** A chunk ends with a semicolon or a brace, and has none before. */
  lemma ChunkEnds(s: string)
    ensures IsChunk(s) <==>
            && s != "" && (s[|s| - 1] == ';' || s[|s| - 1] == '{' || s[|s| - 1] == '}')
            && forall i | 0 <= i < |s| - 1 :: s[i] != ';' && s[i] != '{' && s[i] != '}'
  {
  }

  lemma {:induction false} ConcatAppend(chunks: seq<string>, s: string)
    ensures Concat(chunks + [s]) == Concat(chunks) + s
  {
    if chunks == [] {
      assert [] + [s] == [s] && [s][1..] == [];
      assert Concat([s]) == s + "" == "" + s;
    } else {
      ConcatAppend(chunks[1..], s);
      assert (chunks + [s])[1..] == chunks[1..] + [s];
    }
  }

  lemma FirstDelimiter(a: string, s: string)
    requires IsChunk(a)
    ensures Delimiter((a + s)[|a| - 1])
    ensures forall i | 0 <= i < |a| - 1 :: !Delimiter((a + s)[i])
  {
  }

  /** A chunk that begins a text is the text up to its first delimiter. */
  lemma ChunkIsPrefix(a: string, s: string, b: string, t: string)
    requires IsChunk(a) && IsChunk(b) && a + s == b + t
    ensures a == b && s == t
  {
    FirstDelimiter(a, s);
    FirstDelimiter(b, t);
    var w := a + s;
    assert a == w[..|a|] && b == w[..|b|] && s == w[|a|..] && t == w[|b|..];
  }

  lemma NoChunkIffNoDelimiter(chars: string, raw: seq<string>, rest: string)
    requires Chunking(chars, raw, rest)
    ensures raw == [] <==> NoDelimiter(chars)
  {
    if raw == [] {
      assert "" + rest == rest;
    } else {
      var tail := Concat(raw[1..]) + rest;
      assert chars == raw[0] + tail;
      FirstDelimiter(raw[0], tail);
    }
  }

  /** A text has only one chunking. */
  lemma {:induction false} ChunkingUnique(chars: string, raw1: seq<string>, rest1: string,
                                          raw2: seq<string>, rest2: string)
    requires Chunking(chars, raw1, rest1) && Chunking(chars, raw2, rest2)
    ensures raw1 == raw2 && rest1 == rest2
    decreases |raw1|
  {
    NoChunkIffNoDelimiter(chars, raw1, rest1);
    NoChunkIffNoDelimiter(chars, raw2, rest2);
    if raw1 == [] {
      assert "" + rest1 == rest1 && "" + rest2 == rest2;
    } else {
      var t1, t2 := Concat(raw1[1..]) + rest1, Concat(raw2[1..]) + rest2;
      assert raw1[0] + t1 == chars == raw2[0] + t2;
      ChunkIsPrefix(raw1[0], t1, raw2[0], t2);
      assert Chunking(t1, raw1[1..], rest1) && Chunking(t1, raw2[1..], rest2);
      ChunkingUnique(t1, raw1[1..], rest1, raw2[1..], rest2);
      assert raw1 == [raw1[0]] + raw1[1..] && raw2 == [raw2[0]] + raw2[1..];
    }
  }

  lemma {:induction false} StripNothing(s: string)
    requires '\n' !in s
    ensures StripNewlines(s) == s
  {
  }

  lemma {:induction false} ChunksInText(raw: seq<string>, i: nat)
    requires i < |raw|
    ensures forall c | c in raw[i] :: c in Concat(raw)
  {
    if i > 0 {
      ChunksInText(raw[1..], i - 1);
    }
  }

  lemma ChunkingExtend(chars: string, raw: seq<string>, current: string, c: char)
    requires Chunking(chars, raw, current) && !Delimiter(c)
    ensures Chunking(chars + [c], raw, current + [c])
  {
    assert Concat(raw) + current + [c] == Concat(raw) + (current + [c]);
  }

  lemma ChunkingClose(chars: string, raw: seq<string>, current: string, c: char)
    requires Chunking(chars, raw, current) && Delimiter(c)
    ensures Chunking(chars + [c], raw + [current + [c]], "")
  {
    ConcatAppend(raw, current + [c]);
    assert Concat(raw) + current + [c] == Concat(raw) + (current + [c]);
    assert Concat(raw + [current + [c]]) + "" == Concat(raw + [current + [c]]);
    assert IsChunk(current + [c]);
  }

  predicate StripsEach(raw: seq<string>, chunks: seq<string>) {
    |chunks| == |raw| && forall i | 0 <= i < |raw| :: chunks[i] == StripNewlines(raw[i])
  }

  /** Cut the stream after every delimiter; what follows the last one is dropped. */
  method AccLines(chars: string) returns (chunks: seq<string>)
    ensures exists raw, rest :: Chunking(chars, raw, rest) && StripsEach(raw, chunks)
    ensures '\n' !in chars ==> exists rest :: Chunking(chars, chunks, rest)
  {
    var current := "";
    chunks := [];
    ghost var raw: seq<string> := [];
    for i := 0 to |chars|
      invariant Chunking(chars[..i], raw, current) && StripsEach(raw, chunks)
    {
      var c := chars[i];
      assert chars[..i + 1] == chars[..i] + [c];
      if Delimiter(c) {
        ChunkingClose(chars[..i], raw, current, c);
      } else {
        ChunkingExtend(chars[..i], raw, current, c);
      }
      current := current + [c];
      if Delimiter(c) {
        chunks := chunks + [StripNewlines(current)];
        raw := raw + [current];
        current := "";
      }
    }
    assert chars[..|chars|] == chars;
    NothingToStrip(chars, raw, current);
    assert '\n' !in chars ==> chunks == raw;
  }

  /** In a stream without newlines, as the earlier stages make it, no chunk
      loses anything. */
  lemma NothingToStrip(chars: string, raw: seq<string>, rest: string)
    requires Chunking(chars, raw, rest)
    ensures '\n' !in chars ==> forall i | 0 <= i < |raw| :: StripNewlines(raw[i]) == raw[i]
  {
    if '\n' !in chars {
      forall k | 0 <= k < |raw|
        ensures StripNewlines(raw[k]) == raw[k]
      {
        ChunksInText(raw, k);
        assert forall c | c in raw[k] :: c in Concat(raw) + rest;
        StripNothing(raw[k]);
      }
    }
  }

  // ---------- contexts ----------

  datatype Context = Context(tag: string, event: string)

  /** A context on the stack, with the depth at which it was met. */
  datatype Entry = Entry(context: Context, depth: int)

  datatype Stack = Stack(entries: seq<Entry>, depth: int)

  const EMPTY: Stack := Stack([], 0)

  function Tagged(contexts: seq<Context>, depth: int): seq<Entry> {
    seq(|contexts|, i requires 0 <= i < |contexts| => Entry(contexts[i], depth))
  }

  /** How many of the first `n` entries are left when those on top with this
      depth are popped. */
  function Kept(entries: seq<Entry>, depth: int, n: nat): (k: nat)
    requires n <= |entries|
    ensures k <= n
  {
    if n > 0 && entries[n - 1].depth == depth then Kept(entries, depth, n - 1) else n
  }

  function PopAt(entries: seq<Entry>, depth: int): seq<Entry> {
    entries[..Kept(entries, depth, |entries|)]
  }

  /** One chunk: the contexts it pushes, then its braces. */
  function Read(s: Stack, line: string, pushes: seq<Context>): Stack {
    var pushed := s.entries + Tagged(pushes, s.depth);
    var depth := if '{' in line then s.depth + 1 else s.depth;
    if '}' in line then Stack(PopAt(pushed, depth - 1), depth - 1) else Stack(pushed, depth)
  }

  /** A chunk together with what the regular expressions found in it. */
  datatype Chunk = Chunk(line: string, pushes: seq<Context>)

  predicate Opens(c: Chunk) {
    '{' in c.line
  }

  /** The stack after the first `n` chunks. */
  function ReadAll(chunks: seq<Chunk>, n: nat): Stack
    requires n <= |chunks|
  {
    if n == 0 then EMPTY else Read(ReadAll(chunks, n - 1), chunks[n - 1].line, chunks[n - 1].pushes)
  }

  /** The reference: the contexts of the braces that the first `n` chunks leave
      open, brace by brace. */
  function OpenBraces(chunks: seq<Chunk>, n: nat): seq<seq<Context>>
    requires n <= |chunks|
  {
    if n == 0 then []
    else
      var before, line := OpenBraces(chunks, n - 1), chunks[n - 1].line;
      if '{' in line then before + [chunks[n - 1].pushes]
      else if '}' in line && before != [] then before[..|before| - 1]
      else before
  }

  function Flatten(frames: seq<seq<Context>>): seq<Context> {
    if frames == [] then [] else Flatten(frames[..|frames| - 1]) + frames[|frames| - 1]
  }

  /** The entries of open braces, seen from `depth` inside all of them. */
  function Stacked(frames: seq<seq<Context>>, depth: int): seq<Entry> {
    if frames == [] then []
    else Stacked(frames[..|frames| - 1], depth - 1) + Tagged(frames[|frames| - 1], depth - 1)
  }

  function Contexts(entries: seq<Entry>): seq<Context> {
    seq(|entries|, i requires 0 <= i < |entries| => entries[i].context)
  }

  ghost predicate Delimited(chunks: seq<Chunk>) {
    forall i | 0 <= i < |chunks| :: IsChunk(chunks[i].line)
  }

  /** Among the first `n` chunks, only those that open a brace push contexts. */
  ghost predicate PushesOpen(chunks: seq<Chunk>, n: nat)
    requires n <= |chunks|
  {
    forall i | 0 <= i < n :: chunks[i].pushes == [] || Opens(chunks[i])
  }

  lemma ChunkBrace(line: string)
    requires IsChunk(line)
    ensures '{' in line <==> line[|line| - 1] == '{'
    ensures '}' in line <==> line[|line| - 1] == '}'
  {
  }

  // ---------- the depth ----------

  function Brace(c: char): int {
    if c == '{' then 1 else if c == '}' then -1 else 0
  }

  /** Opening braces minus closing braces of a text. */
  function Braces(s: string): int {
    if s == "" then 0 else Braces(s[..|s| - 1]) + Brace(s[|s| - 1])
  }

  lemma {:induction false} BracesAppend(s: string, t: string)
    ensures Braces(s + t) == Braces(s) + Braces(t)
  {
    if t == "" {
      assert s + t == s;
    } else {
      var init := t[..|t| - 1];
      BracesAppend(s, init);
      assert (s + t)[..|s + t| - 1] == s + init;
    }
  }

  lemma {:induction false} NoBraces(s: string)
    requires NoDelimiter(s)
    ensures Braces(s) == 0
  {
    if s != "" {
      NoBraces(s[..|s| - 1]);
    }
  }

  /** A chunk has one brace at most, and the substring tests see it. */
  lemma BracesOfChunk(line: string)
    requires IsChunk(line)
    ensures Braces(line) == (if '{' in line then 1 else 0) - (if '}' in line then 1 else 0)
  {
    ChunkBrace(line);
    NoBraces(line[..|line| - 1]);
  }

  /** The text of the first `n` chunks. */
  function Text(chunks: seq<Chunk>, n: nat): string
    requires n <= |chunks|
  {
    if n == 0 then "" else Text(chunks, n - 1) + chunks[n - 1].line
  }

  /** The depth is the number of opening braces minus the number of closing
      ones in the text read so far. */
  lemma {:induction false} DepthIsBraces(chunks: seq<Chunk>, n: nat)
    requires n <= |chunks| && Delimited(chunks)
    ensures ReadAll(chunks, n).depth == Braces(Text(chunks, n))
  {
    if n > 0 {
      DepthIsBraces(chunks, n - 1);
      BracesOfChunk(chunks[n - 1].line);
      BracesAppend(Text(chunks, n - 1), chunks[n - 1].line);
    }
  }

  lemma {:induction false} KeptExactly(entries: seq<Entry>, depth: int, m: nat, n: nat)
    requires m <= n <= |entries| && (m > 0 ==> entries[m - 1].depth != depth)
    requires forall i | m <= i < n :: entries[i].depth == depth
    ensures Kept(entries, depth, n) == m
    decreases n
  {
    if m < n {
      KeptExactly(entries, depth, m, n - 1);
    }
  }

  lemma PopExactly(entries: seq<Entry>, pushed: seq<Context>, depth: int)
    requires entries != [] ==> entries[|entries| - 1].depth != depth
    ensures PopAt(entries + Tagged(pushed, depth), depth) == entries
  {
    var all := entries + Tagged(pushed, depth);
    KeptExactly(all, depth, |entries|, |all|);
    assert all[..|entries|] == entries;
  }

  lemma {:induction false} StackedDepths(frames: seq<seq<Context>>, depth: int)
    ensures forall i | 0 <= i < |Stacked(frames, depth)| :: Stacked(frames, depth)[i].depth < depth
  {
    if frames != [] {
      StackedDepths(frames[..|frames| - 1], depth - 1);
    }
  }

  lemma {:induction false} StackedContexts(frames: seq<seq<Context>>, depth: int)
    ensures Contexts(Stacked(frames, depth)) == Flatten(frames)
  {
    if frames != [] {
      StackedContexts(frames[..|frames| - 1], depth - 1);
    }
  }

  lemma ReadOpen(s: Stack, frames: seq<seq<Context>>, line: string, pushes: seq<Context>)
    requires '{' in line && '}' !in line && s.entries == Stacked(frames, s.depth)
    ensures Read(s, line, pushes) == Stack(Stacked(frames + [pushes], s.depth + 1), s.depth + 1)
  {
    assert (frames + [pushes])[..|frames|] == frames;
  }

  lemma PopFrame(frames: seq<seq<Context>>, depth: int)
    requires frames != []
    ensures PopAt(Stacked(frames, depth), depth - 1) == Stacked(frames[..|frames| - 1], depth - 1)
  {
    StackedDepths(frames[..|frames| - 1], depth - 1);
    PopExactly(Stacked(frames[..|frames| - 1], depth - 1), frames[|frames| - 1], depth - 1);
  }

  lemma ReadPops(s: Stack, line: string, left: seq<Entry>)
    requires '{' !in line && '}' in line && PopAt(s.entries, s.depth - 1) == left
    ensures Read(s, line, []) == Stack(left, s.depth - 1)
  {
    assert s.entries + Tagged([], s.depth) == s.entries;
  }

  lemma ReadClose(s: Stack, frames: seq<seq<Context>>, line: string)
    requires '{' !in line && '}' in line && frames != [] && s.entries == Stacked(frames, s.depth)
    ensures Read(s, line, []) == Stack(Stacked(frames[..|frames| - 1], s.depth - 1), s.depth - 1)
  {
    PopFrame(frames, s.depth);
    ReadPops(s, line, Stacked(frames[..|frames| - 1], s.depth - 1));
  }

  lemma ReadUnmatched(s: Stack, line: string)
    requires '{' !in line && '}' in line && s.entries == []
    ensures Read(s, line, []) == Stack([], s.depth - 1)
  {
    ReadPops(s, line, []);
  }

  lemma ReadPlain(s: Stack, line: string)
    requires '{' !in line && '}' !in line
    ensures Read(s, line, []) == s
  {
    assert s.entries + Tagged([], s.depth) == s.entries;
  }

  /** If contexts are pushed only on opening braces, then however the braces
      nest, and unmatched closing ones included, the stack holds exactly the
      contexts of the braces still open, each with its nesting depth. */
  lemma {:induction false} StackFollowsBraces(chunks: seq<Chunk>, n: nat)
    requires n <= |chunks| && Delimited(chunks) && PushesOpen(chunks, n)
    ensures ReadAll(chunks, n).entries == Stacked(OpenBraces(chunks, n), ReadAll(chunks, n).depth)
  {
    if n > 0 {
      StackFollowsBraces(chunks, n - 1);
      var last, s, frames := chunks[n - 1], ReadAll(chunks, n - 1), OpenBraces(chunks, n - 1);
      ChunkBrace(last.line);
      if '{' in last.line {
        ReadOpen(s, frames, last.line, last.pushes);
      } else if '}' in last.line && frames == [] {
        ReadUnmatched(s, last.line);
      } else if '}' in last.line {
        ReadClose(s, frames, last.line);
      } else {
        ReadPlain(s, last.line);
      }
    }
  }

  /** A push on a chunk that opens no brace is not popped by it. */
  lemma StrayPushStays(s: Stack, line: string, pushes: seq<Context>)
    requires '{' !in line && pushes != []
    ensures |Read(s, line, pushes).entries| > |s.entries|
  {
    var pushed := s.entries + Tagged(pushes, s.depth);
    assert pushed[|pushed| - 1].depth == s.depth;
  }

  lemma FramesShrink(chunks: seq<Chunk>, n: nat)
    requires 0 < n <= |chunks| && !Opens(chunks[n - 1])
    ensures |Flatten(OpenBraces(chunks, n))| <= |Flatten(OpenBraces(chunks, n - 1))|
  {
  }

  /** After `n` chunks the stack holds the contexts of the open braces. */
  ghost predicate FollowsAt(chunks: seq<Chunk>, n: nat)
    requires n <= |chunks|
  {
    Contexts(ReadAll(chunks, n).entries) == Flatten(OpenBraces(chunks, n))
  }

  lemma Follows(chunks: seq<Chunk>, n: nat)
    requires n <= |chunks| && Delimited(chunks) && PushesOpen(chunks, n)
    ensures FollowsAt(chunks, n)
  {
    StackFollowsBraces(chunks, n);
    StackedContexts(OpenBraces(chunks, n), ReadAll(chunks, n).depth);
  }

  lemma StrayDiverges(chunks: seq<Chunk>, i: nat)
    requires i < |chunks| && FollowsAt(chunks, i)
    requires chunks[i].pushes != [] && !Opens(chunks[i])
    ensures !FollowsAt(chunks, i + 1)
  {
    StrayPushStays(ReadAll(chunks, i), chunks[i].line, chunks[i].pushes);
    FramesShrink(chunks, i + 1);
  }

  /** The stack follows the braces at every point exactly when contexts are
      pushed only by chunks that open a brace. */
  lemma StackFollowsBracesIff(chunks: seq<Chunk>)
    requires Delimited(chunks)
    ensures PushesOpen(chunks, |chunks|) <==> forall k | 0 <= k <= |chunks| :: FollowsAt(chunks, k)
  {
    if PushesOpen(chunks, |chunks|) {
      forall k | 0 <= k <= |chunks|
        ensures FollowsAt(chunks, k)
      {
        Follows(chunks, k);
      }
    } else {
      var i := FirstStray(chunks, |chunks|);
      Follows(chunks, i);
      StrayDiverges(chunks, i);
    }
  }

  lemma {:induction false} FirstStray(chunks: seq<Chunk>, n: nat) returns (i: nat)
    requires n <= |chunks| && !PushesOpen(chunks, n)
    ensures i < n && PushesOpen(chunks, i) && chunks[i].pushes != [] && !Opens(chunks[i])
  {
    if PushesOpen(chunks, n - 1) {
      i := n - 1;
    } else {
      i := FirstStray(chunks, n - 1);
    }
  }

  // ---------- the renderer ----------

  /** The three searches, as functions of the text they search: a state
      declaration, a handler signature within one chunk, and a handler
      signature within a chunk joined to its predecessor. */
  datatype Regexes = Regexes(state: string -> Option<Context>,
                             signature: string -> Option<Context>,
                             joined: string -> Option<Context>)

  function Found(o: Option<Context>): seq<Context> {
    if o.Some? then [o.value] else []
  }

  function Signature(rx: Regexes, line: string, previous: Option<string>): seq<Context> {
    if rx.signature(line).Some? || previous.None? then Found(rx.signature(line))
    else Found(rx.joined(previous.value + " " + line))
  }

  /** A chunk is searched for a state first and for a signature then. */
  function Annotated(rx: Regexes, line: string, previous: Option<string>): Chunk {
    Chunk(line, Found(rx.state(line)) + Signature(rx, line, previous))
  }

  function Annotate(rx: Regexes, lines: seq<string>): seq<Chunk> {
    seq(|lines|, i requires 0 <= i < |lines| =>
        Annotated(rx, lines[i], if i == 0 then None else Some(lines[i - 1])))
  }

  lemma PushTwice(s: Stack, line: string, a: seq<Context>, b: seq<Context>)
    ensures Read(s, line, a + b) == Read(Stack(s.entries + Tagged(a, s.depth), s.depth), line, b)
  {
    assert s.entries + Tagged(a + b, s.depth) == s.entries + Tagged(a, s.depth) + Tagged(b, s.depth);
  }

  class Renderer {
    var context: seq<Entry>
    var contextDepth: int

    constructor ()
      ensures context == [] && contextDepth == 0
    {
      context, contextDepth := [], 0;
    }

    ghost function View(): Stack
      reads this
    {
      Stack(context, contextDepth)
    }

    method GetState(line: string, rx: Regexes)
      modifies this`context
      ensures context == old(context) + Tagged(Found(rx.state(line)), contextDepth)
    {
      if rx.state(line).Some? {
        context := context + [Entry(rx.state(line).value, contextDepth)];
      }
    }

    method PopContexts()
      modifies this`context
      ensures context == PopAt(old(context), contextDepth)
    {
      while |context| > 0 && context[|context| - 1].depth == contextDepth
        invariant context <= old(context)
        invariant Kept(old(context), contextDepth, |context|) == Kept(old(context), contextDepth, |old(context)|)
        decreases |context|
      {
        context := context[..|context| - 1];
      }
    }

    method GetContext(line: string, previous: Option<string>, rx: Regexes)
      modifies this
      ensures View() == Read(old(View()), line, Signature(rx, line, previous))
      ensures contextDepth == old(contextDepth) + (if '{' in line then 1 else 0) - (if '}' in line then 1 else 0)
      ensures '}' !in line ==>
                if rx.signature(line).Some?
                then context == old(context) + [Entry(rx.signature(line).value, old(contextDepth))]
                else if previous.Some? && rx.joined(previous.value + " " + line).Some?
                then context == old(context) + [Entry(rx.joined(previous.value + " " + line).value, old(contextDepth))]
                else context == old(context)
    {
      var found := rx.signature(line);
      if found.None? && previous.Some? {
        found := rx.joined(previous.value + " " + line);
      }
      ghost var pushed := context + Tagged(Found(found), contextDepth);
      if found.Some? {
        context := context + [Entry(found.value, contextDepth)];
      }
      assert context == pushed;
      if '{' in line {
        contextDepth := contextDepth + 1;
      }
      if '}' in line {
        contextDepth := contextDepth - 1;
        PopContexts();
      }
    }

    method ReadInput(lines: seq<string>, rx: Regexes)
      requires View() == EMPTY
      modifies this
      ensures View() == ReadAll(Annotate(rx, lines), |lines|)
    {
      var previous := None;
      ghost var chunks := Annotate(rx, lines);
      for i := 0 to |lines|
        invariant previous == if i == 0 then None else Some(lines[i - 1])
        invariant View() == ReadAll(chunks, i)
      {
        var line := lines[i];
        ghost var before := View();
        GetState(line, rx);
        GetContext(line, previous, rx);
        PushTwice(before, line, Found(rx.state(line)), Signature(rx, line, previous));
        previous := Some(line);
      }
    }
  }

  lemma ChunksClean(chars: string, chunks: seq<string>, rest: string)
    requires Chunking(chars, chunks, rest) && CommentFilter.Clean(chars)
    ensures CommentFilter.Clean(Concat(chunks))
  {
    assert Concat(chunks) == chars[..|Concat(chunks)|];
    CommentFilter.PairPrefix(chars, '/', '/', |Concat(chunks)|);
    CommentFilter.PairPrefix(chars, '/', '*', |Concat(chunks)|);
  }

  predicate PlainLines(file: seq<string>) {
    forall i | 0 <= i < |file| :: !CommentMeaning.Hash(file[i]) && '/' !in file[i]
  }

  /** From a file to its chunks. A file without `#` lines and slashes is cut as it
      stands, but for its newlines. */
  method CutFile(file: seq<string>) returns (chunks: seq<string>)
    requires CommentFilter.FileLines(file)
    ensures CommentFilter.Clean(Concat(chunks))
    ensures exists rest :: Chunking(CommentFilter.Pipeline(file), chunks, rest)
    ensures PlainLines(file) ==> exists rest :: Chunking(CommentFilter.Blank(Concat(file)), chunks, rest)
  {
    var chars := CommentFilter.RemoveMultilineComments(
      CommentFilter.ToChar(CommentFilter.RemoveSingleLineComments(file)));
    CommentFilter.PipelineClean(file);
    CommentFilter.PipelineHasNoNewline(file);
    chunks := AccLines(chars);
    ghost var rest :| Chunking(chars, chunks, rest);
    ChunksClean(chars, chunks, rest);
    if PlainLines(file) {
      CommentMeaning.PlainFile(file);
    }
  }

  ghost predicate Carries(chunks: seq<Chunk>, lines: seq<string>) {
    |chunks| == |lines| && forall i | 0 <= i < |lines| :: chunks[i].line == lines[i]
  }

  lemma AnnotateCarries(rx: Regexes, lines: seq<string>)
    ensures Carries(Annotate(rx, lines), lines)
  {
  }

  lemma {:induction false} TextOfLines(chunks: seq<Chunk>, lines: seq<string>, n: nat)
    requires Carries(chunks, lines) && n <= |lines|
    ensures Text(chunks, n) == Concat(lines[..n])
  {
    if n > 0 {
      TextOfLines(chunks, lines, n - 1);
      ConcatAppend(lines[..n - 1], lines[n - 1]);
      assert lines[..n] == lines[..n - 1] + [lines[n - 1]];
      assert chunks[n - 1].line == lines[n - 1];
    }
  }

  lemma AnnotatedDelimited(rx: Regexes, lines: seq<string>)
    requires forall i | 0 <= i < |lines| :: IsChunk(lines[i])
    ensures Delimited(Annotate(rx, lines))
  {
    AnnotateCarries(rx, lines);
  }

  lemma BracesOfText(chars: string, lines: seq<string>, rest: string)
    requires Chunking(chars, lines, rest)
    ensures Braces(chars) == Braces(Concat(lines))
  {
    BracesAppend(Concat(lines), rest);
    NoBraces(rest);
  }

  /** What is left behind the last chunk holds no brace. */
  lemma DepthOfText(chunks: seq<Chunk>, chars: string, lines: seq<string>, rest: string)
    requires Chunking(chars, lines, rest) && Carries(chunks, lines)
    ensures ReadAll(chunks, |chunks|).depth == Braces(chars)
  {
    assert Delimited(chunks);
    DepthIsBraces(chunks, |chunks|);
    TextOfLines(chunks, lines, |lines|);
    assert lines[..|lines|] == lines;
    BracesOfText(chars, lines, rest);
  }

  /** From a file to the stack: the chunks are the only chunking of the
      comment-free text, the depth counts the braces of that text, and the
      contexts left are those of its open braces if contexts were pushed only
      on opening braces. At every point on the way they are exactly then. */
  method ReadFile(file: seq<string>, rx: Regexes) returns (chunks: seq<string>, renderer: Renderer)
    requires CommentFilter.FileLines(file)
    ensures CommentFilter.Clean(Concat(chunks)) && fresh(renderer)
    ensures exists rest :: Chunking(CommentFilter.Pipeline(file), chunks, rest)
    ensures renderer.View() == ReadAll(Annotate(rx, chunks), |chunks|)
    ensures renderer.contextDepth == Braces(CommentFilter.Pipeline(file))
    ensures PushesOpen(Annotate(rx, chunks), |chunks|) ==>
              Contexts(renderer.context) == Flatten(OpenBraces(Annotate(rx, chunks), |chunks|))
    ensures PushesOpen(Annotate(rx, chunks), |chunks|) <==>
            forall k | 0 <= k <= |chunks| :: FollowsAt(Annotate(rx, chunks), k)
  {
    chunks := CutFile(file);
    renderer := new Renderer();
    renderer.ReadInput(chunks, rx);
    ghost var rest :| Chunking(CommentFilter.Pipeline(file), chunks, rest);
    AnnotateCarries(rx, chunks);
    AnnotatedDelimited(rx, chunks);
    DepthOfText(Annotate(rx, chunks), CommentFilter.Pipeline(file), chunks, rest);
    StackFollowsBracesIff(Annotate(rx, chunks));
    assert FollowsAt(Annotate(rx, chunks), |chunks|) ==>
        Contexts(renderer.context) == Flatten(OpenBraces(Annotate(rx, chunks), |chunks|));
  }

  /** The second search finds whatever the first found in the earlier half. */
  ghost predicate Persistent(rx: Regexes) {
    forall previous: string, line: string | rx.signature(previous).Some? ::
      rx.joined(previous + " " + line).Some?
  }

  lemma JoinedPushes(rx: Regexes, lines: seq<string>, i: nat)
    requires Persistent(rx) && i + 1 < |lines| && rx.signature(lines[i]).Some?
    ensures Annotate(rx, lines)[i + 1].pushes != []
  {
    assert rx.joined(lines[i] + " " + lines[i + 1]).Some?;
    assert Annotate(rx, lines)[i + 1] == Annotated(rx, lines[i + 1], Some(lines[i]));
  }

  /** Joining lines breaks the condition on every handler with a statement:
      wherever a signature is followed by a chunk that opens no brace, the
      stack stops following the braces. */
  lemma JoinedLineDiverges(rx: Regexes, lines: seq<string>, i: nat)
    requires forall j | 0 <= j < |lines| :: IsChunk(lines[j])
    requires Persistent(rx) && i + 1 < |lines| && rx.signature(lines[i]).Some? && '{' !in lines[i + 1]
    ensures exists k | 0 <= k <= |lines| :: !FollowsAt(Annotate(rx, lines), k)
  {
    JoinedPushes(rx, lines, i);
    AnnotatedDelimited(rx, lines);
    var chunks := Annotate(rx, lines);
    assert chunks[i + 1].pushes != [] && !Opens(chunks[i + 1]);
    StackFollowsBracesIff(chunks);
  }

  /** One chunk opens a brace, the next opens and closes none, the third closes. */
  predicate OneStatement(open: string, inner: string, close: string) {
    '{' in open && '}' !in open && '{' !in inner && '}' !in inner && '{' !in close && '}' in close
  }

  /** Contexts pushed inside a brace outlive its closing brace. */
  lemma InnerContextsStay(s: Stack, open: Chunk, inner: Chunk, close: Chunk)
    requires OneStatement(open.line, inner.line, close.line) && inner.pushes != []
    ensures var a := Read(s, open.line, open.pushes);
            var b := Read(a, inner.line, inner.pushes);
            |Read(b, close.line, close.pushes).entries| > |s.entries|
  {
    var a := Read(s, open.line, open.pushes);
    var b := Read(a, inner.line, inner.pushes);
    assert a.depth == b.depth == s.depth + 1;
    assert b.entries[|b.entries| - 1].depth == b.depth;
    var pushed := b.entries + Tagged(close.pushes, b.depth);
    assert pushed[|pushed| - 1].depth == b.depth;
    assert Kept(pushed, b.depth - 1, |pushed|) == |pushed|;
  }

  lemma FramesReturn(chunks: seq<Chunk>, i: nat)
    requires i + 3 <= |chunks| && OneStatement(chunks[i].line, chunks[i + 1].line, chunks[i + 2].line)
    ensures OpenBraces(chunks, i + 3) == OpenBraces(chunks, i)
  {
    var before := OpenBraces(chunks, i);
    var inside := before + [chunks[i].pushes];
    assert OpenBraces(chunks, i + 1) == inside;
    assert OpenBraces(chunks, i + 2) == inside;
    assert OpenBraces(chunks, i + 3) == inside[..|inside| - 1];
    assert inside[..|before|] == before;
  }

  lemma ContextsRemain(chunks: seq<Chunk>, i: nat)
    requires i + 3 <= |chunks| && OneStatement(chunks[i].line, chunks[i + 1].line, chunks[i + 2].line)
    requires chunks[i + 1].pushes != []
    ensures |ReadAll(chunks, i + 3).entries| > |ReadAll(chunks, i).entries|
  {
    var s := ReadAll(chunks, i);
    InnerContextsStay(s, chunks[i], chunks[i + 1], chunks[i + 2]);
    var a := Read(s, chunks[i].line, chunks[i].pushes);
    assert ReadAll(chunks, i + 1) == a;
    var b := Read(a, chunks[i + 1].line, chunks[i + 1].pushes);
    assert ReadAll(chunks, i + 2) == b;
    assert ReadAll(chunks, i + 3) == Read(b, chunks[i + 2].line, chunks[i + 2].pushes);
  }

  /** Wherever in a file a handler consists of its signature, a statement and its
      closing brace, the braces are afterwards as they were before it, and the
      stack holds more contexts. */
  lemma JoinedLineLeavesContexts(rx: Regexes, lines: seq<string>, i: nat)
    requires Persistent(rx) && i + 3 <= |lines| && rx.signature(lines[i]).Some?
    requires OneStatement(lines[i], lines[i + 1], lines[i + 2])
    ensures OpenBraces(Annotate(rx, lines), i + 3) == OpenBraces(Annotate(rx, lines), i)
    ensures |ReadAll(Annotate(rx, lines), i + 3).entries| > |ReadAll(Annotate(rx, lines), i).entries|
  {
    var chunks := Annotate(rx, lines);
    JoinedPushes(rx, lines, i);
    assert chunks[i].line == lines[i] && chunks[i + 1].line == lines[i + 1] && chunks[i + 2].line == lines[i + 2];
    FramesReturn(chunks, i);
    ContextsRemain(chunks, i);
  }

  /** Chunk `k` closes a brace and returns to `depth`. */
  ghost predicate ReturnsTo(chunks: seq<Chunk>, k: nat, depth: int)
    requires k < |chunks|
  {
    '}' in chunks[k].line && ReadAll(chunks, k + 1).depth == depth
  }

  /** The topmost entry has this depth. */
  predicate TopAt(entries: seq<Entry>, depth: int) {
    entries != [] && entries[|entries| - 1].depth == depth
  }

  /** A chunk that pushes nothing takes entries off the stack exactly when it
      returns to the depth of the topmost one. */
  lemma QuietChunk(chunks: seq<Chunk>, k: nat, depth: int)
    requires k < |chunks| && chunks[k].pushes == []
    ensures ReadAll(chunks, k + 1).entries <= ReadAll(chunks, k).entries
    ensures TopAt(ReadAll(chunks, k).entries, depth) ==>
              (ReadAll(chunks, k + 1).entries == ReadAll(chunks, k).entries <==> !ReturnsTo(chunks, k, depth))
  {
    var s := ReadAll(chunks, k);
    assert s.entries + Tagged([], s.depth) == s.entries;
  }

  /** What is left over on the stack stays, while nothing is pushed, exactly until
      a closing brace returns to the depth of the topmost entry. */
  lemma {:induction false} LeftoverStaysIff(chunks: seq<Chunk>, i: nat, n: nat, depth: int)
    requires i <= n <= |chunks| && (forall k | i <= k < n :: chunks[k].pushes == [])
    requires TopAt(ReadAll(chunks, i).entries, depth)
    ensures ReadAll(chunks, n).entries <= ReadAll(chunks, i).entries
    ensures ReadAll(chunks, n).entries == ReadAll(chunks, i).entries <==>
            forall k | i <= k < n :: !ReturnsTo(chunks, k, depth)
    decreases n
  {
    if i < n {
      var e, m := ReadAll(chunks, i).entries, n - 1;
      var before, after := ReadAll(chunks, m).entries, ReadAll(chunks, n).entries;
      LeftoverStaysIff(chunks, i, m, depth);
      QuietChunk(chunks, m, depth);
      if before == e {
        assert after == e <==> !ReturnsTo(chunks, m, depth);
      } else {
        assert |after| <= |before| < |e|;
      }
    }
  }
}
