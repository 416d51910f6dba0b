/** The command-line tokenizer: cuts a NUL-terminated buffer into words in place and hands out the
    positions at which the words start. */
module Tokenizer {
  import opened Options

  // ---- Lines as the scanner sees them ----

  datatype Kind = Letter | Gap | Return | Newline

  function KindOf(c: char): Kind {
    if c == ' ' || c == '\t' then Gap
    else if c == '\r' then Return
    else if c == '\n' then Newline
    else Letter
  }

  function Kinds(line: seq<char>): (s: seq<Kind>)
    ensures |s| == |line| && forall i :: 0 <= i < |line| ==> s[i] == KindOf(line[i])
  {
    seq(|line|, i requires 0 <= i < |line| => KindOf(line[i]))
  }

  /** A word: the positions from `start` up to, not including, `end`. */
  datatype Span = Span(start: nat, end: nat)

  /** Carriage returns are skipped like blanks, unless they follow a word directly. */
  predicate Skipped(k: Kind) {
    k == Gap || k == Return
  }

  /** The first position from `at` on that is not skipped. */
  function NextStart(s: seq<Kind>, at: nat): (a: nat)
    requires at <= |s|
    ensures at <= a <= |s|
    decreases |s| - at
  {
    if at < |s| && Skipped(s[at]) then NextStart(s, at + 1) else at
  }

  function WordEnd(s: seq<Kind>, at: nat): (e: nat)
    requires at <= |s|
    ensures at <= e <= |s|
    decreases |s| - at
  {
    if at < |s| && s[at] == Letter then WordEnd(s, at + 1) else at
  }

  predicate WordAt(s: seq<Kind>, a: nat) {
    a < |s| && s[a] == Letter
  }

  /** Whether a word ending at `e` is the last of the line. */
  predicate StopsAt(s: seq<Kind>, e: nat) {
    e >= |s| || s[e] == Newline || s[e] == Return
  }

  /** Where the scan stands after `n` words, if the line is not over by then. */
  function Cursor(s: seq<Kind>, n: nat): (at: Option<nat>)
    ensures at.Some? ==> at.value <= |s|
  {
    if n == 0 then Some(0)
    else match Cursor(s, n - 1)
      case None => None
      case Some(at) =>
        var a := NextStart(s, at);
        var e := WordEnd(s, a);
        if !WordAt(s, a) || StopsAt(s, e) then None else Some(e + 1)
  }

  /** The word number `n` of the line, if it has that many. */
  function Word(s: seq<Kind>, n: nat): Option<Span> {
    match Cursor(s, n)
    case None => None
    case Some(at) =>
      var a := NextStart(s, at);
      if WordAt(s, a) then Some(Span(a, WordEnd(s, a))) else None
  }

  lemma {:induction false} NextStartFacts(s: seq<Kind>, at: nat)
    requires at <= |s|
    ensures NextStart(s, at) < |s| ==> !Skipped(s[NextStart(s, at)])
    ensures forall k :: at <= k < NextStart(s, at) ==> Skipped(s[k])
    decreases |s| - at
  {
    if at < |s| && Skipped(s[at]) {
      NextStartFacts(s, at + 1);
    }
  }

  lemma {:induction false} WordEndFacts(s: seq<Kind>, at: nat)
    requires at <= |s|
    ensures WordEnd(s, at) < |s| ==> s[WordEnd(s, at)] != Letter
    ensures forall k :: at <= k < WordEnd(s, at) ==> s[k] == Letter
    decreases |s| - at
  {
    if at < |s| && s[at] == Letter {
      WordEndFacts(s, at + 1);
    }
  }

  // ---- The scanner ----

  /** `b` is a C string holding `line`, with or without something after the NUL. */
  predicate IsCString(b: seq<char>, line: seq<char>) {
    |line| < |b| && b[..|line|] == line && b[|line|] == '\0' && '\0' !in line
  }

  /** From `p` on the buffer still holds the line of kinds `s` and its NUL. */
  ghost predicate Holds(buffer: array<char>, s: seq<Kind>, p: nat)
    reads buffer
  {
    && p <= |s| < buffer.Length && buffer[|s|] == '\0'
    && forall k :: p <= k < |s| ==> buffer[k] != '\0' && KindOf(buffer[k]) == s[k]
  }

  /** The parameters are the positions at which the first `n` words start. */
  ghost predicate AreStarts(params: seq<nat>, s: seq<Kind>, n: nat) {
    |params| == n && forall i :: 0 <= i < n ==> Word(s, i).Some? && params[i] == Word(s, i).value.start
  }

  /** The buffer with a NUL written at the end of each of the first `n` words. */
  function Cut(b: seq<char>, s: seq<Kind>, n: nat): (c: seq<char>)
    ensures |c| == |b|
  {
    if n == 0 then b
    else
      var c := Cut(b, s, n - 1);
      match Word(s, n - 1)
      case Some(w) => if w.end < |b| then c[w.end := '\0'] else c
      case None => c
  }

  /** remove_leading_whitespace: skips blanks and carriage returns, not tabs. */
  method RemoveLeadingWhitespace(buffer: array<char>, start: nat, ghost s: seq<Kind>) returns (p: nat)
    requires Holds(buffer, s, start)
    ensures start <= p <= |s| && buffer[p] != ' ' && buffer[p] != '\r'
    ensures NextStart(s, start) == NextStart(s, p)
  {
    p := start;
    while buffer[p] == ' ' || buffer[p] == '\r'
      invariant start <= p <= |s|
      invariant NextStart(s, start) == NextStart(s, p)
      decreases |s| - p
    {
      p := p + 1;
    }
  }

  /** The inner loop: runs over word characters. */
  method ScanWord(buffer: array<char>, start: nat, ghost s: seq<Kind>) returns (setCopy: bool, p: nat)
    requires Holds(buffer, s, start)
    ensures p == WordEnd(s, start) && (setCopy <==> p > start)
  {
    p := start;
    setCopy := false;
    while buffer[p] != ' ' && buffer[p] != '\0' && buffer[p] != '\r' && buffer[p] != '\n' && buffer[p] != '\t'
      invariant start <= p <= |s|
      invariant setCopy <==> p > start
      invariant WordEnd(s, start) == WordEnd(s, p)
      decreases |s| - p
    {
      setCopy := true;
      p := p + 1;
    }
  }

  /** One round of the main loop: at most one word is found and cut off; `last` tells that the line
      is over. */
  method NextParam(buffer: array<char>, at: nat, ghost s: seq<Kind>)
    returns (setCopy: bool, start: nat, p: nat, last: bool, ghost end: nat)
    requires Holds(buffer, s, at)
    modifies buffer
    ensures end < buffer.Length
    ensures buffer[..] == if setCopy then old(buffer[..])[end := '\0'] else old(buffer[..])
    ensures !last ==> at < p && Holds(buffer, s, p)
    ensures setCopy ==> start == NextStart(s, at) && WordAt(s, start) && end == WordEnd(s, start)
    ensures setCopy ==> (last <==> StopsAt(s, end)) && (!last ==> p == end + 1)
    ensures !setCopy && last ==> !WordAt(s, NextStart(s, at))
    ensures !setCopy && !last ==> NextStart(s, p) == NextStart(s, at)
  {
    start := RemoveLeadingWhitespace(buffer, at, s);
    setCopy, p := ScanWord(buffer, start, s);
    end := p;
    last := buffer[p] == '\0' || buffer[p] == '\r' || buffer[p] == '\n';
    assert last <==> StopsAt(s, p);
    if setCopy {
      buffer[p] := '\0';
    }
    if !last {
      p := p + 1;
    }
  }

  /** split_buffer: the words of the line, as many as fit; each is ended by a NUL in the buffer. */
  method SplitBuffer(buffer: array?<char>, ghost line: seq<char>, maxParamNum: nat) returns (params: seq<nat>)
    requires buffer != null ==> IsCString(buffer[..], line)
    modifies if buffer == null then {} else {buffer}
    ensures buffer == null ==> params == []
    ensures buffer != null ==> SplitsInto(Kinds(line), maxParamNum, params, old(buffer[..]), buffer[..])
  {
    params := [];
    if buffer != null {
      assert forall k :: 0 <= k < |line| ==> buffer[..][..|line|][k] == line[k] && line[k] in line;
      params := SplitLine(buffer, Kinds(line), maxParamNum);
    }
  }

  /** `params` and the new buffer `c` are what scanning a line of kinds `s` in buffer `b` gives. */
  ghost predicate SplitsInto(s: seq<Kind>, max: nat, params: seq<nat>, b: seq<char>, c: seq<char>) {
    && |params| <= max && (|params| < max ==> Word(s, |params|) == None)
    && AreStarts(params, s, |params|)
    && c == Cut(b, s, |params|)
  }

  /** Between rounds: `i` words are found and cut off; the scan goes on at `p` unless it is over. */
  ghost predicate Between(buffer: array<char>, s: seq<Kind>, b: seq<char>, params: seq<nat>, i: nat, p: nat, last: bool)
    reads buffer
  {
    && AreStarts(params, s, i)
    && buffer[..] == Cut(b, s, i)
    && (last ==> Word(s, i) == None)
    && (!last ==> Holds(buffer, s, p) && Cursor(s, i).Some? && NextStart(s, Cursor(s, i).value) == NextStart(s, p))
  }

  /** What finding a word at `start` says about the words of the line. */
  lemma FoundWord(s: seq<Kind>, b: seq<char>, i: nat, p: nat, start: nat, end: nat)
    requires p <= |s| && Cursor(s, i).Some? && NextStart(s, Cursor(s, i).value) == NextStart(s, p) == start
    requires WordAt(s, start) && end == WordEnd(s, start) < |b|
    ensures Word(s, i) == Some(Span(start, end))
    ensures Cursor(s, i + 1) == if StopsAt(s, end) then None else Some(end + 1)
    ensures StopsAt(s, end) ==> Word(s, i + 1) == None
    ensures Cut(b, s, i + 1) == Cut(b, s, i)[end := '\0']
  {}

  lemma NoMoreWords(s: seq<Kind>, i: nat, p: nat)
    requires p <= |s| && Cursor(s, i).Some? && NextStart(s, Cursor(s, i).value) == NextStart(s, p)
    requires !WordAt(s, NextStart(s, p))
    ensures Word(s, i) == None
  {}

  lemma StartsGrow(params: seq<nat>, s: seq<Kind>, i: nat, w: Span)
    requires AreStarts(params, s, i) && Word(s, i) == Some(w)
    ensures AreStarts(params + [w.start], s, i + 1)
  {}

  /** The scan stands at `p` with the same words still to come as from its cursor. */
  predicate StandsAt(s: seq<Kind>, i: nat, p: nat) {
    p <= |s| && Cursor(s, i).Some? && NextStart(s, Cursor(s, i).value) == NextStart(s, p)
  }

  lemma BetweenFound(buffer: array<char>, s: seq<Kind>, b: seq<char>, params: seq<nat>, i: nat, at: nat, start: nat,
                     end: nat, p: nat, last: bool)
    requires StandsAt(s, i, at) && AreStarts(params, s, i)
    requires start == NextStart(s, at) && WordAt(s, start) && end == WordEnd(s, start) < |b|
    requires buffer[..] == Cut(b, s, i)[end := '\0']
    requires last <==> StopsAt(s, end)
    requires !last ==> p == end + 1 && Holds(buffer, s, p)
    ensures Between(buffer, s, b, params + [start], i + 1, p, last)
  {
    FoundWord(s, b, i, at, start, end);
    StartsGrow(params, s, i, Span(start, end));
    BetweenNext(buffer, s, b, params + [start], i + 1, p, last);
  }

  lemma BetweenNext(buffer: array<char>, s: seq<Kind>, b: seq<char>, params: seq<nat>, i: nat, p: nat, last: bool)
    requires AreStarts(params, s, i) && buffer[..] == Cut(b, s, i)
    requires if last then Word(s, i) == None else Cursor(s, i) == Some(p) && Holds(buffer, s, p)
    ensures Between(buffer, s, b, params, i, p, last)
  {}

  lemma BetweenNone(buffer: array<char>, s: seq<Kind>, b: seq<char>, params: seq<nat>, i: nat, at: nat, p: nat,
                    last: bool)
    requires StandsAt(s, i, at) && AreStarts(params, s, i) && buffer[..] == Cut(b, s, i)
    requires last ==> !WordAt(s, NextStart(s, at))
    requires !last ==> Holds(buffer, s, p) && NextStart(s, p) == NextStart(s, at)
    ensures Between(buffer, s, b, params, i, p, last)
  {
    if last {
      NoMoreWords(s, i, at);
    }
  }

  /** The loop body. */
  method Round(buffer: array<char>, ghost s: seq<Kind>, ghost b: seq<char>, params: seq<nat>, i: nat, p: nat)
    returns (params': seq<nat>, i': nat, p': nat, last: bool)
    requires Between(buffer, s, b, params, i, p, false)
    modifies buffer
    ensures Between(buffer, s, b, params', i', p', last)
    ensures i <= i' <= i + 1 && (!last ==> p < p')
  {
    var setCopy, start;
    ghost var end;
    assert StandsAt(s, i, p) && buffer.Length == |b|;
    setCopy, start, p', last, end := NextParam(buffer, p, s);
    if setCopy {
      BetweenFound(buffer, s, b, params, i, p, start, end, p', last);
      params' := params + [start];
      i' := i + 1;
    } else {
      BetweenNone(buffer, s, b, params, i, p, p', last);
      params', i' := params, i;
    }
  }

  /** The main loop. */
  method SplitLine(buffer: array<char>, ghost s: seq<Kind>, maxParamNum: nat) returns (params: seq<nat>)
    requires Holds(buffer, s, 0)
    modifies buffer
    ensures SplitsInto(s, maxParamNum, params, old(buffer[..]), buffer[..])
  {
    params := [];
    ghost var b := buffer[..];
    var p, i, last := 0, 0, false;
    while i < maxParamNum && !last
      invariant i <= maxParamNum && Between(buffer, s, b, params, i, p, last)
      decreases !last, |s| - p
    {
      params, i, p, last := Round(buffer, s, b, params, i, p);
    }
  }

  // ---- What the words are ----

  /** Where the scan ends for good: the first newline, or the first carriage return right after a
      letter; the length if there is neither. */
  predicate EndsLine(s: seq<Kind>, p: nat) {
    p >= |s| || s[p] == Newline || (s[p] == Return && p > 0 && s[p - 1] == Letter)
  }

  function Limit(s: seq<Kind>, at: nat): (p: nat)
    requires at <= |s|
    ensures at <= p <= |s|
    decreases |s| - at
  {
    if EndsLine(s, at) then at else Limit(s, at + 1)
  }

  /** `w` is a maximal run of letters among the first `limit` characters. */
  ghost predicate MaximalRun(s: seq<Kind>, limit: nat, w: Span)
    requires limit <= |s|
  {
    && w.start < w.end <= limit
    && (forall k :: w.start <= k < w.end ==> s[k] == Letter)
    && (w.start == 0 || s[w.start - 1] != Letter)
    && (w.end == limit || s[w.end] != Letter)
  }

  lemma {:induction false} NoLimitInside(s: seq<Kind>, at: nat, e: nat)
    requires at <= e <= |s|
    requires (forall k :: at <= k < e ==> s[k] == Letter) || (forall k :: at <= k < e ==> Skipped(s[k]))
    requires at < e && s[at] != Letter ==> at == 0 || s[at - 1] != Letter
    ensures Limit(s, at) == Limit(s, e)
    decreases e - at
  {
    if at < e {
      assert s[at] == Letter || Skipped(s[at]);
      NoLimitInside(s, at + 1, e);
    }
  }

  lemma RunFromStart(s: seq<Kind>, at: nat, a: nat, e: nat, limit: nat, w: Span)
    requires at <= a < e <= limit <= |s| && (at == 0 || s[at - 1] != Letter)
    requires forall k :: at <= k < a ==> Skipped(s[k])
    requires forall k :: a <= k < e ==> s[k] == Letter
    requires e < limit ==> s[e] != Letter
    ensures at <= w.start && MaximalRun(s, limit, w)
       <==> w == Span(a, e) || (e + 1 <= w.start && MaximalRun(s, limit, w))
  {
    assert a == 0 || s[a - 1] != Letter;
    assert MaximalRun(s, limit, w) ==> s[w.start] == Letter;
    if w.start == a {
      RunEnd(s, a, e, limit, w);
    } else if a < w.start < e {
      assert s[w.start - 1] == Letter;
    }
  }

  lemma RunEnd(s: seq<Kind>, a: nat, e: nat, limit: nat, w: Span)
    requires a < e <= limit <= |s| && w.start == a
    requires forall k :: a <= k < e ==> s[k] == Letter
    requires e < limit ==> s[e] != Letter
    ensures MaximalRun(s, limit, w) ==> w.end == e
  {}

  /** The cursor never stands inside a word, and the end of the line is always the same from it. */
  lemma {:induction false} CursorFacts(s: seq<Kind>, n: nat)
    ensures var c := Cursor(s, n);
            c.Some? ==> (c.value == 0 || s[c.value - 1] != Letter) && Limit(s, c.value) == Limit(s, 0)
  {
    if n > 0 && Cursor(s, n).Some? {
      CursorFacts(s, n - 1);
      var at := Cursor(s, n - 1).value;
      var a := NextStart(s, at);
      NextStartFacts(s, at);
      NoLimitInside(s, at, a);
      WordEndFacts(s, a);
      NoLimitInside(s, a, WordEnd(s, a));
    }
  }

  /** The runs from a cursor on: the next word, and the runs from the cursor after it. */
  lemma RunsFromCursor(s: seq<Kind>, n: nat, w: Span)
    requires Cursor(s, n).Some?
    ensures (Cursor(s, n).value <= w.start && MaximalRun(s, Limit(s, 0), w))
         == (Word(s, n) == Some(w)
             || (Cursor(s, n + 1).Some? && Cursor(s, n + 1).value <= w.start && MaximalRun(s, Limit(s, 0), w)))
  {
    CursorFacts(s, n);
    var at := Cursor(s, n).value;
    var a := NextStart(s, at);
    NextStartFacts(s, at);
    NoLimitInside(s, at, a);
    if WordAt(s, a) {
      var e := WordEnd(s, a);
      WordEndFacts(s, a);
      NoLimitInside(s, a, e);
      RunFromStart(s, at, a, e, Limit(s, 0), w);
    } else {
      NoRunInBlanks(s, at, a, w);
    }
  }

  lemma NoRunInBlanks(s: seq<Kind>, at: nat, a: nat, w: Span)
    requires at <= a <= |s| && forall k :: at <= k < a ==> Skipped(s[k])
    ensures !(at <= w.start && MaximalRun(s, a, w))
  {
    assert at <= w.start < a ==> Skipped(s[w.start]);
  }

  lemma RunIsWord(s: seq<Kind>, n: nat, w: Span) returns (m: nat)
    requires Cursor(s, n).Some? && Cursor(s, n).value <= w.start && MaximalRun(s, Limit(s, 0), w)
    ensures Word(s, m) == Some(w)
    decreases |s| - Cursor(s, n).value
  {
    RunsFromCursor(s, n, w);
    m := n;
    if Word(s, n) != Some(w) {
      m := RunIsWord(s, n + 1, w);
    }
  }

  /** For every line, the words are exactly the maximal runs of letters before the line ends. */
  lemma WordsAreMaximalRuns(line: seq<char>, w: Span)
    ensures (exists n: nat :: Word(Kinds(line), n) == Some(w)) <==> MaximalRun(Kinds(line), Limit(Kinds(line), 0), w)
  {
    var s := Kinds(line);
    if MaximalRun(s, Limit(s, 0), w) {
      var n := RunIsWord(s, 0, w);
    }
    forall n: nat | Word(s, n) == Some(w)
      ensures MaximalRun(s, Limit(s, 0), w)
    {
      RunsFromCursor(s, n, w);
    }
  }

  /** The words come in the order of the line, apart from one another, and without gaps in the count. */
  lemma {:induction false} WordsInOrder(s: seq<Kind>, i: nat, j: nat)
    requires i <= j && Word(s, j).Some?
    ensures Word(s, i).Some? && Word(s, i).value.start < Word(s, i).value.end <= |s|
    ensures i < j ==> Word(s, i).value.end < Word(s, j).value.start
    decreases j
  {
    if i < j {
      assert Word(s, j - 1).Some? && Word(s, j - 1).value.end < Word(s, j).value.start;
      WordsInOrder(s, i, j - 1);
      WordsInOrder(s, j - 1, j - 1);
    }
  }

  /** Without carriage returns the line simply ends at its first newline. */
  lemma {:induction false} LimitIsNewline(s: seq<Kind>, at: nat)
    requires at <= |s| && Return !in s
    ensures Limit(s, at) < |s| ==> s[Limit(s, at)] == Newline
    ensures forall k :: at <= k < Limit(s, at) ==> s[k] != Newline
    decreases |s| - at
  {
    if !EndsLine(s, at) {
      LimitIsNewline(s, at + 1);
    } else if at < |s| {
      assert s[at] in s;
    }
  }

  // ---- The same on characters ----

  /** `w` is a maximal run of characters, among the first `limit`, that are not blank. */
  ghost predicate CharacterRun(line: seq<char>, limit: nat, w: Span)
    requires limit <= |line|
  {
    && w.start < w.end <= limit
    && (forall k :: w.start <= k < w.end ==> line[k] !in " \t\r\n")
    && (w.start == 0 || line[w.start - 1] in " \t\r\n")
    && (w.end == limit || line[w.end] in " \t\r\n")
  }

  /** A newline, or a carriage return right after something that is not blank. */
  predicate EndCharacter(line: seq<char>, p: nat)
    requires p < |line|
  {
    line[p] == '\n' || (line[p] == '\r' && p > 0 && line[p - 1] !in " \t\r\n")
  }

  /** The line ends at the first such character, or at its end. */
  ghost predicate LineEndsAt(line: seq<char>, p: nat) {
    && p <= |line| && (p < |line| ==> EndCharacter(line, p))
    && forall q: nat :: q < p ==> !EndCharacter(line, q)
  }

  lemma LetterIsNotBlank(c: char)
    ensures KindOf(c) == Letter <==> c !in " \t\r\n"
  {}

  lemma EndCharacterEnds(line: seq<char>, p: nat)
    requires p < |line|
    ensures EndsLine(Kinds(line), p) <==> EndCharacter(line, p)
  {
    if p > 0 {
      LetterIsNotBlank(line[p - 1]);
    }
  }

  lemma {:induction false} LimitIsFirst(s: seq<Kind>, at: nat, p: nat)
    requires at <= p <= |s| && EndsLine(s, p) && forall q: nat :: at <= q < p ==> !EndsLine(s, q)
    ensures Limit(s, at) == p
    decreases p - at
  {
    if at < p {
      LimitIsFirst(s, at + 1, p);
    }
  }

  lemma RunOfCharacters(line: seq<char>, limit: nat, w: Span)
    requires limit <= |line|
    ensures MaximalRun(Kinds(line), limit, w) <==> CharacterRun(line, limit, w)
  {
    forall k: nat | k < |line|
      ensures Kinds(line)[k] == Letter <==> line[k] !in " \t\r\n"
    {
      LetterIsNotBlank(line[k]);
    }
  }

  /** For every line, wherever it ends, the words are exactly the maximal runs of characters before that
      which are neither blank, tab, carriage return nor newline. */
  lemma WordsOfCharacters(line: seq<char>, p: nat, w: Span)
    requires LineEndsAt(line, p)
    ensures (exists n: nat :: Word(Kinds(line), n) == Some(w)) <==> CharacterRun(line, p, w)
  {
    if p < |line| {
      EndCharacterEnds(line, p);
    }
    forall q: nat | q < p
      ensures !EndsLine(Kinds(line), q)
    {
      EndCharacterEnds(line, q);
    }
    LimitIsFirst(Kinds(line), 0, p);
    WordsAreMaximalRuns(line, w);
    RunOfCharacters(line, p, w);
  }

  // ---- What the caller finds in the buffer ----

  lemma {:induction false} CutAt(b: seq<char>, s: seq<Kind>, n: nat, k: nat)
    requires k < |b|
    ensures Cut(b, s, n)[k]
         == if exists j: nat :: j < n && Word(s, j).Some? && Word(s, j).value.end == k then '\0' else b[k]
  {
    if n > 0 {
      CutAt(b, s, n - 1, k);
    }
  }

  /** No word of the line ends inside word `i`. */
  lemma NoCutInside(s: seq<Kind>, i: nat, k: nat, j: nat)
    requires Word(s, i).Some? && Word(s, i).value.start <= k < Word(s, i).value.end && Word(s, j).Some?
    ensures Word(s, j).value.end != k
  {
    if j < i {
      WordsInOrder(s, j, i);
    } else if i < j {
      WordsInOrder(s, i, j);
      WordsInOrder(s, j, j);
    }
  }

  /** A character of a word is never cut. */
  lemma WordKept(b: seq<char>, s: seq<Kind>, n: nat, i: nat, k: nat)
    requires Word(s, i).Some? && Word(s, i).value.start <= k < Word(s, i).value.end && k < |b|
    ensures Cut(b, s, n)[k] == b[k]
  {
    CutAt(b, s, n, k);
    forall j: nat | j < n && Word(s, j).Some?
      ensures Word(s, j).value.end != k
    {
      NoCutInside(s, i, k, j);
    }
  }

  lemma WordEndIsCut(b: seq<char>, s: seq<Kind>, n: nat, i: nat)
    requires i < n && Word(s, i).Some? && Word(s, i).value.end < |b|
    ensures Cut(b, s, n)[Word(s, i).value.end] == '\0'
  {
    CutAt(b, s, n, Word(s, i).value.end);
  }

  lemma IsCStringFrom(c: seq<char>, line: seq<char>, start: nat, end: nat)
    requires start <= end <= |line| && end < |c| && c[end] == '\0' && '\0' !in line
    requires forall k :: start <= k < end ==> c[k] == line[k]
    ensures IsCString(c[start..], line[start..end])
  {
    var tail, word := c[start..], line[start..end];
    assert tail[..|word|] == word;
    assert forall k :: 0 <= k < |word| ==> word[k] in line;
  }

  /** Each parameter, read as a C string from its position in the cut buffer, is its word. */
  lemma ParameterIsWord(b: seq<char>, line: seq<char>, n: nat, i: nat)
    requires IsCString(b, line) && i < n && Word(Kinds(line), i).Some?
    ensures var w := Word(Kinds(line), i).value;
            && w.start < w.end <= |line|
            && IsCString(Cut(b, Kinds(line), n)[w.start..], line[w.start..w.end])
  {
    var s := Kinds(line);
    var w := Word(s, i).value;
    WordsInOrder(s, i, i);
    WordEndIsCut(b, s, n, i);
    forall k | w.start <= k < w.end
      ensures Cut(b, s, n)[k] == line[k]
    {
      WordKept(b, s, n, i, k);
      assert b[..|line|][k] == b[k];
    }
    IsCStringFrom(Cut(b, s, n), line, w.start, w.end);
  }
}
