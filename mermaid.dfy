/** `MermaidExtractor.extract_mermaid_blocks`: Python's `re.findall` with the
    pattern "```mermaid\n(.*?)```" (DOTALL, so `.` also matches a newline),
    written as an explicit left-to-right scanner. */
module Mermaid {
  import opened Wrappers
  import opened PyStr

  /** What a fence opens with, the newline included. */
  const Opener: string := "```mermaid\n"
  /** What closes a fence. */
  const Fence: string := "```"

  /** An opener starts at `i`. It is spelled out character by character; the
      lemma `OpensAtStartsWith` ties it to `Opener`. */
  predicate OpensAt(s: string, i: nat) {
    && i + 11 <= |s|
    && s[i] == '`' && s[i + 1] == '`' && s[i + 2] == '`'
    && s[i + 3] == 'm' && s[i + 4] == 'e' && s[i + 5] == 'r' && s[i + 6] == 'm'
    && s[i + 7] == 'a' && s[i + 8] == 'i' && s[i + 9] == 'd' && s[i + 10] == '\n'
  }

  /** A closing fence starts at `k`; `ClosesAtStartsWith` ties it to `Fence`. */
  predicate ClosesAt(s: string, k: nat) {
    k + 3 <= |s| && s[k] == '`' && s[k + 1] == '`' && s[k + 2] == '`'
  }

  lemma OpensAtStartsWith(s: string, i: nat)
    ensures OpensAt(s, i) <==> i <= |s| && StartsWith(s[i..], Opener)
  {
    if i + |Opener| <= |s| {
      assert forall t :: 0 <= t < |Opener| ==> s[i..][..|Opener|][t] == s[i + t];
    }
  }

  lemma ClosesAtStartsWith(s: string, k: nat)
    ensures ClosesAt(s, k) <==> k <= |s| && StartsWith(s[k..], Fence)
  {
    if k + |Fence| <= |s| {
      assert forall t :: 0 <= t < |Fence| ==> s[k..][..|Fence|][t] == s[k + t];
    }
  }

  /** The first opener at or after `from`. */
  function FindOpen(s: string, from: nat): (r: Option<nat>)
    requires from <= |s|
    ensures r.Some? ==> from <= r.value && OpensAt(s, r.value)
    decreases |s| - from
  {
    if OpensAt(s, from) then Some(from)
    else if from == |s| then None
    else FindOpen(s, from + 1)
  }

  /** The first closing fence at or after `from`: where the lazy `(.*?)` stops. */
  function FindClose(s: string, from: nat): (r: Option<nat>)
    requires from <= |s|
    ensures r.Some? ==> from <= r.value && ClosesAt(s, r.value)
    decreases |s| - from
  {
    if ClosesAt(s, from) then Some(from)
    else if from == |s| then None
    else FindClose(s, from + 1)
  }

  /** `FindOpen` finds the first opener: none starts between `from` and it,
      and none at all when it finds nothing. */
  lemma {:induction false} FindOpenIsFirst(s: string, from: nat)
    requires from <= |s|
    ensures FindOpen(s, from).Some? ==> forall i :: from <= i < FindOpen(s, from).value ==> !OpensAt(s, i)
    ensures FindOpen(s, from).None? ==> forall i :: from <= i <= |s| ==> !OpensAt(s, i)
    decreases |s| - from
  {
    if !OpensAt(s, from) && from < |s| {
      FindOpenIsFirst(s, from + 1);
    }
  }

  /** `FindClose` finds the first closing fence: the lazy `(.*?)` stops there. */
  lemma {:induction false} FindCloseIsFirst(s: string, from: nat)
    requires from <= |s|
    ensures FindClose(s, from).Some? ==> forall k :: from <= k < FindClose(s, from).value ==> !ClosesAt(s, k)
    ensures FindClose(s, from).None? ==> forall k :: from <= k <= |s| ==> !ClosesAt(s, k)
    decreases |s| - from
  {
    if !ClosesAt(s, from) && from < |s| {
      FindCloseIsFirst(s, from + 1);
    }
  }

  /** One match: the opener starts at `open`, the captured body runs from
      `open + |Opener|` up to `close`, where the closing fence starts. */
  datatype Span = Span(open: nat, close: nat)

  /** `sp` is a match in `s`: an opener at its start, a closing fence at its
      end, and no closing fence anywhere in between. */
  predicate IsMatch(s: string, sp: Span) {
    && sp.open + |Opener| <= sp.close
    && sp.close + |Fence| <= |s|
    && OpensAt(s, sp.open)
    && ClosesAt(s, sp.close)
    && (forall k :: sp.open + |Opener| <= k < sp.close ==> !ClosesAt(s, k))
  }

  /** The matches found when scanning resumes at `from`: take the first opener,
      then the first closing fence after it; a fence that is never closed ends
      the scan. */
  function Spans(s: string, from: nat): (spans: seq<Span>)
    requires from <= |s|
    ensures forall j :: 0 <= j < |spans| ==> IsMatch(s, spans[j]) && from <= spans[j].open
    ensures forall j :: 0 <= j < |spans| - 1 ==> spans[j].close + |Fence| <= spans[j + 1].open
    decreases |s| - from
  {
    match FindOpen(s, from)
    case None => []
    case Some(i) =>
      match FindClose(s, i + |Opener|)
      case None => []
      case Some(k) =>
        var rest := Spans(s, k + |Fence|);
        FindCloseIsFirst(s, i + |Opener|);
        SpansCons(s, from, Span(i, k), rest);
        [Span(i, k)] + rest
  }

  /** A match in front of later, ordered matches keeps them ordered. */
  lemma SpansCons(s: string, from: nat, sp: Span, rest: seq<Span>)
    requires IsMatch(s, sp) && from <= sp.open
    requires forall j :: 0 <= j < |rest| ==> IsMatch(s, rest[j]) && sp.close + |Fence| <= rest[j].open
    requires forall j :: 0 <= j < |rest| - 1 ==> rest[j].close + |Fence| <= rest[j + 1].open
    ensures var spans := [sp] + rest;
      && (forall j :: 0 <= j < |spans| ==> IsMatch(s, spans[j]) && from <= spans[j].open)
      && (forall j :: 0 <= j < |spans| - 1 ==> spans[j].close + |Fence| <= spans[j + 1].open)
  {
    assert forall j :: 1 <= j < |[sp] + rest| ==> ([sp] + rest)[j] == rest[j - 1];
  }

  /** The text a match captures. */
  function Body(s: string, sp: Span): string
    requires IsMatch(s, sp)
  {
    s[sp.open + |Opener|..sp.close]
  }

  predicate AllMatches(s: string, spans: seq<Span>) {
    forall j :: 0 <= j < |spans| ==> IsMatch(s, spans[j])
  }

  /** The captured texts of the given matches, in order. */
  function Bodies(s: string, spans: seq<Span>): (bodies: seq<string>)
    requires AllMatches(s, spans)
    ensures |bodies| == |spans|
    ensures forall j :: 0 <= j < |spans| ==> bodies[j] == Body(s, spans[j])
  {
    if spans == [] then []
    else
      assert IsMatch(s, spans[0]);
      [Body(s, spans[0])] + Bodies(s, spans[1..])
  }

  /** The bodies `re.findall` returns when scanning resumes at `from`: the
      scanner itself, one match per step. */
  function ExtractFrom(s: string, from: nat): seq<string>
    requires from <= |s|
    decreases |s| - from
  {
    match FindOpen(s, from)
    case None => []
    case Some(i) =>
      match FindClose(s, i + |Opener|)
      case None => []
      case Some(k) => [s[i + |Opener|..k]] + ExtractFrom(s, k + |Fence|)
  }

  /** One scanning step of `Spans`. */
  lemma SpansStep(s: string, from: nat, i: nat, k: nat)
    requires from <= |s| && FindOpen(s, from) == Some(i) && FindClose(s, i + |Opener|) == Some(k)
    ensures Spans(s, from) == [Span(i, k)] + Spans(s, k + |Fence|)
  {
  }

  lemma BodiesCons(s: string, sp: Span, rest: seq<Span>)
    requires AllMatches(s, [sp] + rest)
    ensures AllMatches(s, rest) && IsMatch(s, sp)
    ensures Bodies(s, [sp] + rest) == [Body(s, sp)] + Bodies(s, rest)
  {
    assert ([sp] + rest)[0] == sp && ([sp] + rest)[1..] == rest;
    forall j | 0 <= j < |rest| ensures IsMatch(s, rest[j]) {
      assert rest[j] == ([sp] + rest)[j + 1];
    }
  }

  lemma ExtractFromIsBodiesCons(s: string, from: nat, i: nat, k: nat)
    requires from <= |s| && FindOpen(s, from) == Some(i) && FindClose(s, i + |Opener|) == Some(k)
    requires k + |Fence| <= |s|
    requires ExtractFrom(s, k + |Fence|) == Bodies(s, Spans(s, k + |Fence|))
    ensures ExtractFrom(s, from) == Bodies(s, Spans(s, from))
  {
    SpansStep(s, from, i, k);
    BodiesCons(s, Span(i, k), Spans(s, k + |Fence|));
    ExtractFromStep(s, from, i, k);
  }

  lemma ExtractFromIsBodiesDone(s: string, from: nat)
    requires from <= |s|
    requires FindOpen(s, from).None? || FindClose(s, FindOpen(s, from).value + |Opener|).None?
    ensures ExtractFrom(s, from) == Bodies(s, Spans(s, from)) == []
  {
  }

  /** The scanner returns the bodies of exactly the matches `Spans` lists. */
  lemma {:induction false} ExtractFromIsBodies(s: string, from: nat)
    requires from <= |s|
    ensures ExtractFrom(s, from) == Bodies(s, Spans(s, from))
    decreases |s| - from
  {
    match FindOpen(s, from)
    case None =>
      ExtractFromIsBodiesDone(s, from);
    case Some(i) =>
      match FindClose(s, i + |Opener|)
      case None =>
        ExtractFromIsBodiesDone(s, from);
      case Some(k) =>
        ExtractFromIsBodies(s, k + |Fence|);
        ExtractFromIsBodiesCons(s, from, i, k);
  }

  /** `MermaidExtractor.extract_mermaid_blocks(markdown_text)`. Each block is
      the text between an opener and the first closing fence after it, so no
      block holds a closing fence. */
  function ExtractMermaidBlocks(markdown: string): (blocks: seq<string>)
    ensures forall j :: 0 <= j < |blocks| ==> !Contains(blocks[j], Fence)
  {
    var spans := Spans(markdown, 0);
    ExtractFromIsBodies(markdown, 0);
    forall j | 0 <= j < |spans| ensures !Contains(Bodies(markdown, spans)[j], Fence) {
      assert IsMatch(markdown, spans[j]);
      MatchBodyHasNoFence(markdown, spans[j]);
    }
    ExtractFrom(markdown, 0)
  }

  /** The body of a match never holds a closing fence: the lazy `(.*?)`
      stops at the first one. */
  lemma MatchBodyHasNoFence(s: string, sp: Span)
    requires IsMatch(s, sp)
    ensures !Contains(Body(s, sp), Fence)
  {
    var body := Body(s, sp);
    forall i | 0 <= i <= |body| ensures !StartsWith(body[i..], Fence) {
      if i + |Fence| <= |body| {
        var k := sp.open + |Opener| + i;
        assert body[i..][..|Fence|] == s[k..][..|Fence|];
        assert !ClosesAt(s, k);
      }
    }
  }

  // ------------------------------------------------------------------
  // What `re.findall` means, stated without a scanner
  // ------------------------------------------------------------------

  /** A match of the pattern can start at `i`: an opener there and a closing
      fence somewhere after it. */
  ghost predicate CanMatchAt(s: string, i: nat) {
    OpensAt(s, i) && exists k :: i + |Opener| <= k <= |s| && ClosesAt(s, k)
  }

  /** `sp` is the match a regular-expression search from `from` reports: the
      leftmost position where a match can start, with the shortest body. */
  ghost predicate FirstMatchFrom(s: string, from: nat, sp: Span) {
    && from <= sp.open
    && CanMatchAt(s, sp.open)
    && (forall i :: from <= i < sp.open ==> !CanMatchAt(s, i))
    && IsMatch(s, sp)
  }

  /** `spans` are the matches `re.findall` reports from `from` on: the first
      match from `from`, then the matches from the end of that one, and no
      match anywhere once they run out. */
  ghost predicate FindAll(s: string, from: nat, spans: seq<Span>)
    decreases |spans|
  {
    if spans == [] then forall i :: from <= i <= |s| ==> !CanMatchAt(s, i)
    else FirstMatchFrom(s, from, spans[0]) && FindAll(s, spans[0].close + |Fence|, spans[1..])
  }

  /** The scanner finds exactly what `re.findall` finds: leftmost matches,
      lazy bodies, resumed after each match, and an unclosed opener (whose
      body could never end) contributes nothing. */
  lemma {:induction false} SpansAreFindAll(s: string, from: nat)
    requires from <= |s|
    ensures FindAll(s, from, Spans(s, from))
    decreases |s| - from
  {
    FindOpenIsFirst(s, from);
    match FindOpen(s, from)
    case None =>
      assert Spans(s, from) == [];
    case Some(i) =>
      match FindClose(s, i + |Opener|)
      case None =>
        assert Spans(s, from) == [];
        UnclosedOpenerEndsMatching(s, from, i);
      case Some(k) =>
        var rest := Spans(s, k + |Fence|);
        assert Spans(s, from) == [Span(i, k)] + rest;
        ScannedMatchIsFirst(s, from, i, k);
        SpansAreFindAll(s, k + |Fence|);
        FindAllCons(s, from, Span(i, k), rest);
  }

  lemma FindAllCons(s: string, from: nat, sp: Span, rest: seq<Span>)
    requires FirstMatchFrom(s, from, sp) && FindAll(s, sp.close + |Fence|, rest)
    ensures FindAll(s, from, [sp] + rest)
  {
    assert ([sp] + rest)[0] == sp && ([sp] + rest)[1..] == rest;
  }

  lemma UnclosedOpenerEndsMatching(s: string, from: nat, i: nat)
    requires from <= |s| && FindOpen(s, from) == Some(i) && FindClose(s, i + |Opener|).None?
    ensures forall j :: from <= j <= |s| ==> !CanMatchAt(s, j)
  {
    FindOpenIsFirst(s, from);
    FindCloseIsFirst(s, i + |Opener|);
    forall j | from <= j <= |s| ensures !CanMatchAt(s, j) {
      if j >= i {
        forall k | j + |Opener| <= k <= |s| ensures !ClosesAt(s, k) {
          assert i + |Opener| <= k;
        }
      }
    }
  }

  lemma ScannedMatchIsFirst(s: string, from: nat, i: nat, k: nat)
    requires from <= |s| && FindOpen(s, from) == Some(i) && FindClose(s, i + |Opener|) == Some(k)
    ensures FirstMatchFrom(s, from, Span(i, k))
  {
    FindOpenIsFirst(s, from);
    FindCloseIsFirst(s, i + |Opener|);
    assert ClosesAt(s, k);
  }

  /** `FindAll` is empty exactly when no match can start. */
  lemma FindAllEmpty(s: string, from: nat, spans: seq<Span>)
    requires FindAll(s, from, spans)
    ensures spans == [] <==> forall i :: from <= i <= |s| ==> !CanMatchAt(s, i)
  {
    if spans != [] {
      assert CanMatchAt(s, spans[0].open);
    }
  }

  lemma LeftmostStart(s: string, from: nat, sp: Span, i: nat)
    requires FirstMatchFrom(s, from, sp) && from <= i && CanMatchAt(s, i)
    ensures sp.open <= i
  {
  }

  lemma ShortestBody(s: string, sp: Span, k: nat)
    requires IsMatch(s, sp) && sp.open + |Opener| <= k && ClosesAt(s, k)
    ensures sp.close <= k
  {
  }

  /** `re.findall` has only one answer, so the scanner is the only one. */
  lemma {:induction false} FindAllIsUnique(s: string, from: nat, a: seq<Span>, b: seq<Span>)
    requires FindAll(s, from, a) && FindAll(s, from, b)
    ensures a == b
    decreases |a|
  {
    FindAllEmpty(s, from, a);
    FindAllEmpty(s, from, b);
    if a != [] && b != [] {
      var x, y := a[0], b[0];
      LeftmostStart(s, from, x, y.open);
      LeftmostStart(s, from, y, x.open);
      ShortestBody(s, x, y.close);
      ShortestBody(s, y, x.close);
      FindAllIsUnique(s, x.close + |Fence|, a[1..], b[1..]);
      assert a == [x] + a[1..] && b == [y] + b[1..];
    }
  }

  // ------------------------------------------------------------------
  // Scanning step by step
  // ------------------------------------------------------------------

  /** One scanning step that finds a match. */
  lemma ExtractFromStep(s: string, from: nat, i: nat, k: nat)
    requires from <= |s| && FindOpen(s, from) == Some(i) && FindClose(s, i + |Opener|) == Some(k)
    ensures ExtractFrom(s, from) == [s[i + |Opener|..k]] + ExtractFrom(s, k + |Fence|)
  {
  }

  /** One scanning step that finds nothing more. */
  lemma ExtractFromDone(s: string, from: nat)
    requires from <= |s|
    requires FindOpen(s, from).None? || FindClose(s, FindOpen(s, from).value + |Opener|).None?
    ensures ExtractFrom(s, from) == []
  {
  }

  /** Two scans that find the same first opener find the same blocks. */
  lemma ExtractFromSameOpen(s: string, from: nat, to: nat)
    requires from <= |s| && to <= |s| && FindOpen(s, from) == FindOpen(s, to)
    ensures ExtractFrom(s, from) == ExtractFrom(s, to)
  {
    match FindOpen(s, from)
    case None =>
      ExtractFromDone(s, from);
      ExtractFromDone(s, to);
    case Some(i) =>
      match FindClose(s, i + |Opener|)
      case None =>
        ExtractFromDone(s, from);
        ExtractFromDone(s, to);
      case Some(k) =>
        ExtractFromStep(s, from, i, k);
        ExtractFromStep(s, to, i, k);
  }

  /** No opener starts on a character other than a backtick. */
  lemma NoOpenerOffBacktick(s: string, p: nat)
    requires p < |s| && s[p] != '`'
    ensures !OpensAt(s, p)
  {
    assert s[p..][0] == s[p];
  }

  lemma {:induction false} FindOpenSkips(s: string, from: nat, to: nat)
    requires from <= to <= |s|
    requires forall p :: from <= p < to ==> s[p] != '`'
    ensures FindOpen(s, from) == FindOpen(s, to)
    decreases |s| - from
  {
    if from < to {
      NoOpenerOffBacktick(s, from);
      FindOpenSkips(s, from + 1, to);
    }
  }

  /** Text without a backtick contributes no block and does not disturb the scan. */
  lemma ExtractSkipsPlainText(s: string, from: nat, to: nat)
    requires from <= to <= |s|
    requires forall p :: from <= p < to ==> s[p] != '`'
    ensures ExtractFrom(s, from) == ExtractFrom(s, to)
  {
    FindOpenSkips(s, from, to);
    ExtractFromSameOpen(s, from, to);
  }

  /** `q` is what follows position `off` of `s`. */
  predicate SuffixAt(s: string, off: nat, q: string) {
    off <= |s| && s[off..] == q
  }

  /** Scanning `q` where it sits inside `s` finds what scanning `q` alone finds. */
  lemma {:induction false} FindOpenShift(s: string, off: nat, q: string, j: nat)
    requires SuffixAt(s, off, q) && j <= |q|
    ensures FindOpen(q, j).None? ==> FindOpen(s, off + j).None?
    ensures FindOpen(q, j).Some? ==> FindOpen(s, off + j) == Some(off + FindOpen(q, j).value)
    decreases |q| - j
  {
    if j + 11 <= |q| {
      assert forall x :: j <= x < j + 11 ==> s[off + x] == q[x];
    }
    if !OpensAt(q, j) && j < |q| {
      FindOpenShift(s, off, q, j + 1);
    }
  }

  lemma {:induction false} FindCloseShift(s: string, off: nat, q: string, j: nat)
    requires SuffixAt(s, off, q) && j <= |q|
    ensures FindClose(q, j).None? ==> FindClose(s, off + j).None?
    ensures FindClose(q, j).Some? ==> FindClose(s, off + j) == Some(off + FindClose(q, j).value)
    decreases |q| - j
  {
    if j + 3 <= |q| {
      assert forall x :: j <= x < j + 3 ==> s[off + x] == q[x];
    }
    if !ClosesAt(q, j) && j < |q| {
      FindCloseShift(s, off, q, j + 1);
    }
  }

  /** A match `q` holds is found at the same place inside `s`, moved by `off`. */
  lemma MatchShift(s: string, off: nat, q: string, j: nat, i: nat, k: nat)
    requires SuffixAt(s, off, q)
    requires j <= |q| && FindOpen(q, j) == Some(i) && FindClose(q, i + |Opener|) == Some(k)
    ensures FindOpen(s, off + j) == Some(off + i)
    ensures FindClose(s, off + i + |Opener|) == Some(off + k)
    ensures i + |Opener| <= k <= |q|
    ensures s[off + i + |Opener|..off + k] == q[i + |Opener|..k]
  {
    FindOpenShift(s, off, q, j);
    FindCloseShift(s, off, q, i + |Opener|);
    assert i + |Opener| <= k <= |q|;
    assert s[off..|s|] == q;
    WindowOfWindow(s, off, |s|, i + |Opener|, k);
  }

  /** `ExtractFromStep` with every position written as an offset plus an index. */
  lemma ExtractFromStepAt(s: string, off: nat, j: nat, i: nat, k: nat)
    requires off + j <= |s| && FindOpen(s, off + j) == Some(off + i)
    requires FindClose(s, off + i + |Opener|) == Some(off + k)
    ensures ExtractFrom(s, off + j) == [s[off + i + |Opener|..off + k]] + ExtractFrom(s, off + k + |Fence|)
  {
    ExtractFromStep(s, off + j, off + i, off + k);
  }

  /** A scanning step of `q` that finds a match is the same step inside `s`. */
  lemma ExtractShiftStep(s: string, off: nat, q: string, j: nat, i: nat, k: nat)
    requires SuffixAt(s, off, q)
    requires j <= |q| && FindOpen(q, j) == Some(i) && FindClose(q, i + |Opener|) == Some(k)
    ensures ExtractFrom(s, off + j) == [q[i + |Opener|..k]] + ExtractFrom(s, off + k + |Fence|)
  {
    MatchShift(s, off, q, j, i, k);
    ExtractFromStepAt(s, off, j, i, k);
  }

  /** A scanning step of `q` that finds no match finds none inside `s` either. */
  lemma ExtractShiftDone(s: string, off: nat, q: string, j: nat)
    requires SuffixAt(s, off, q) && j <= |q|
    requires FindOpen(q, j).None? || FindClose(q, FindOpen(q, j).value + |Opener|).None?
    ensures ExtractFrom(q, j) == [] && ExtractFrom(s, off + j) == []
  {
    FindOpenShift(s, off, q, j);
    if FindOpen(q, j).Some? {
      FindCloseShift(s, off, q, FindOpen(q, j).value + |Opener|);
    }
    ExtractFromDone(q, j);
    ExtractFromDone(s, off + j);
  }

  /** One matching step, given that the rest of the scan agrees. */
  lemma ExtractShiftCons(s: string, off: nat, q: string, j: nat, i: nat, k: nat)
    requires SuffixAt(s, off, q)
    requires j <= |q| && FindOpen(q, j) == Some(i) && FindClose(q, i + |Opener|) == Some(k)
    requires k + |Fence| <= |q|
    requires ExtractFrom(s, off + (k + |Fence|)) == ExtractFrom(q, k + |Fence|)
    ensures ExtractFrom(s, off + j) == ExtractFrom(q, j)
  {
    ExtractFromStep(q, j, i, k);
    ExtractShiftStep(s, off, q, j, i, k);
    assert off + k + |Fence| == off + (k + |Fence|);
  }

  /** Scanning the text that follows `off` finds the same blocks as scanning
      that text on its own. */
  lemma {:induction false} ExtractShift(s: string, off: nat, q: string, j: nat)
    requires SuffixAt(s, off, q) && j <= |q|
    ensures ExtractFrom(s, off + j) == ExtractFrom(q, j)
    decreases |q| - j
  {
    var o := FindOpen(q, j);
    if o.Some? && FindClose(q, o.value + |Opener|).Some? {
      var k := FindClose(q, o.value + |Opener|).value;
      ExtractShift(s, off, q, k + |Fence|);
      ExtractShiftCons(s, off, q, j, o.value, k);
    } else {
      ExtractShiftDone(s, off, q, j);
    }
  }

  // ------------------------------------------------------------------
  // Re-wrapped blocks, as the organisation prompt writes them
  // ------------------------------------------------------------------

  /** "```mermaid\n{block}\n```": one extracted block wrapped in a fence again. */
  function Fenced(block: string): string {
    Opener + block + "\n" + Fence
  }

  /** Each block wrapped in its fence, in order. */
  function Rewrapped(blocks: seq<string>): (fenced: seq<string>)
    ensures |fenced| == |blocks|
  {
    if blocks == [] then [] else [Fenced(blocks[0])] + Rewrapped(blocks[1..])
  }

  predicate FenceFree(blocks: seq<string>) {
    forall j :: 0 <= j < |blocks| ==> !Contains(blocks[j], Fence)
  }

  lemma {:induction false} FirstCloseAt(s: string, from: nat, c: nat)
    requires from <= c && ClosesAt(s, c)
    requires forall k :: from <= k < c ==> !ClosesAt(s, k)
    ensures FindClose(s, from) == Some(c)
    decreases c - from
  {
    if from < c {
      FirstCloseAt(s, from + 1, c);
    }
  }

  /** A window of a slice is the same window of the whole text. */
  lemma SliceWindow(s: string, lo: nat, hi: nat, b: string, i: nat, n: nat)
    requires lo <= hi <= |s| && s[lo..hi] == b && i + n <= |b|
    ensures s[lo + i..][..n] == b[i..][..n]
  {
    forall t | 0 <= t < n ensures s[lo + i..][..n][t] == b[i..][..n][t] {
      assert s[lo + i + t] == s[lo..hi][i + t];
    }
  }

  /** A fenced block is the opener, the block and its newline, and the fence. */
  lemma FencedParts(b: string)
    ensures var w, n := Fenced(b), |Opener|;
      && |w| == n + |b| + 1 + |Fence|
      && w[..n] == Opener
      && w[n..n + |b| + 1] == b + "\n"
      && w[n + |b| + 1..] == Fence
  {
    assert Fenced(b) == Opener + (b + "\n") + Fence;
  }

  /** `Opener` spelled out at `pos` is an opener there. */
  lemma OpensAtWindow(s: string, pos: nat)
    requires pos + |Opener| <= |s| && s[pos..pos + |Opener|] == Opener
    ensures OpensAt(s, pos)
  {
    assert s[pos..][..|Opener|] == s[pos..pos + |Opener|];
    OpensAtStartsWith(s, pos);
  }

  /** `Fence` spelled out at `pos` is a closing fence there. */
  lemma ClosesAtWindow(s: string, pos: nat)
    requires pos + |Fence| <= |s| && s[pos..pos + |Fence|] == Fence
    ensures ClosesAt(s, pos)
  {
    assert s[pos..][..|Fence|] == s[pos..pos + |Fence|];
    ClosesAtStartsWith(s, pos);
  }

  /** A fenced block found at `pos` opens there and closes after its newline. */
  lemma FencedFences(s: string, pos: nat, b: string)
    requires pos + |Fenced(b)| <= |s| && s[pos..pos + |Fenced(b)|] == Fenced(b)
    ensures OpensAt(s, pos)
    ensures ClosesAt(s, pos + |Opener| + |b| + 1)
  {
    var w, n, m := Fenced(b), |Opener|, |b| + 1;
    var hi := pos + |w|;
    FencedParts(b);
    WindowOfWindow(s, pos, hi, 0, n);
    OpensAtWindow(s, pos);
    WindowOfWindow(s, pos, hi, n + m, |w|);
    ClosesAtWindow(s, pos + n + m);
  }

  /** The body of a fenced block found at `pos` is the block and its newline. */
  lemma FencedBody(s: string, pos: nat, b: string)
    requires pos + |Fenced(b)| <= |s| && s[pos..pos + |Fenced(b)|] == Fenced(b)
    ensures s[pos + |Opener|..pos + |Opener| + |b|] == b
    ensures s[pos + |Opener|..pos + |Opener| + |b| + 1] == b + "\n"
    ensures s[pos + |Opener| + |b|] == '\n'
  {
    var w, n, m := Fenced(b), |Opener|, |b| + 1;
    FencedParts(b);
    WindowOfWindow(s, pos, pos + |w|, n, n + m);
    var body := s[pos + n..pos + n + m];
    assert body == b + "\n";
    assert body[..|b|] == s[pos + n..pos + n + |b|];
    assert body[|b|] == s[pos + n + |b|];
  }

  /** Where the parts of a fenced block sit when the block is found at `pos`. */
  lemma FencedLayout(s: string, pos: nat, b: string)
    requires pos + |Fenced(b)| <= |s| && s[pos..pos + |Fenced(b)|] == Fenced(b)
    ensures OpensAt(s, pos)
    ensures ClosesAt(s, pos + |Opener| + |b| + 1)
    ensures s[pos + |Opener|..pos + |Opener| + |b|] == b
    ensures s[pos + |Opener|..pos + |Opener| + |b| + 1] == b + "\n"
    ensures s[pos + |Opener| + |b|] == '\n'
  {
    FencedFences(s, pos, b);
    FencedBody(s, pos, b);
  }

  /** No closing fence starts inside a fence-free block or on the newline after it. */
  lemma NoCloseInFencedBody(s: string, lo: nat, b: string)
    requires !Contains(b, Fence)
    requires lo + |b| < |s| && s[lo..lo + |b|] == b && s[lo + |b|] == '\n'
    ensures forall k :: lo <= k < lo + |b| + 1 ==> !ClosesAt(s, k)
  {
    var nl := lo + |b|;
    forall k | lo <= k < nl + 1 ensures !ClosesAt(s, k) {
      if k + |Fence| <= nl {
        var i := k - lo;
        SliceWindow(s, lo, nl, b, i, |Fence|);
        assert !StartsWith(b[i..], Fence);
      } else if k + |Fence| <= |s| {
        assert s[k..][nl - k] == '\n';
      }
    }
  }

  /** A fenced block found at `pos` is matched whole, and its body is the block
      followed by the fence's newline. */
  lemma FencedBlockAt(s: string, pos: nat, b: string)
    requires !Contains(b, Fence)
    requires pos + |Fenced(b)| <= |s| && s[pos..pos + |Fenced(b)|] == Fenced(b)
    ensures ExtractFrom(s, pos) == [b + "\n"] + ExtractFrom(s, pos + |Fenced(b)|)
  {
    var bodyStart := pos + |Opener|;
    var c := bodyStart + |b| + 1;
    FencedLayout(s, pos, b);
    assert FindOpen(s, pos) == Some(pos);
    NoCloseInFencedBody(s, bodyStart, b);
    FirstCloseAt(s, bodyStart, c);
    ExtractFromStep(s, pos, pos, c);
  }

  /** The first fenced block of a non-empty list leads its blank-line join. */
  lemma JoinRewrappedCons(blocks: seq<string>)
    requires blocks != []
    ensures |blocks| == 1 ==> Join("\n\n", Rewrapped(blocks)) == Fenced(blocks[0])
    ensures |blocks| > 1 ==> Join("\n\n", Rewrapped(blocks))
                             == Fenced(blocks[0]) + "\n\n" + Join("\n\n", Rewrapped(blocks[1..]))
  {
    assert Rewrapped(blocks)[0] == Fenced(blocks[0]);
    assert Rewrapped(blocks)[1..] == Rewrapped(blocks[1..]);
  }

  lemma FenceFreeTail(blocks: seq<string>)
    requires blocks != [] && FenceFree(blocks)
    ensures !Contains(blocks[0], Fence) && FenceFree(blocks[1..])
  {
    forall j | 0 <= j < |blocks[1..]| ensures !Contains(blocks[1..][j], Fence) {
      assert blocks[1..][j] == blocks[j + 1];
    }
  }

  /** A fenced block at the start of the text is extracted first, and the scan
      goes on with the text after it. */
  lemma ExtractFencedThen(b: string, t: string)
    requires !Contains(b, Fence)
    ensures ExtractFrom(Fenced(b) + t, 0) == [b + "\n"] + ExtractFrom(t, 0)
  {
    var s := Fenced(b) + t;
    assert s[0..|Fenced(b)|] == Fenced(b);
    FencedBlockAt(s, 0, b);
    assert s[|Fenced(b)|..] == t;
    ExtractShift(s, |Fenced(b)|, t, 0);
  }

  /** Text without a backtick at the start contributes no block. */
  lemma ExtractAfterPlain(p: string, t: string)
    requires Avoids(p, '`')
    ensures ExtractFrom(p + t, 0) == ExtractFrom(t, 0)
  {
    ExtractSkipsPlainText(p + t, 0, |p|);
    assert (p + t)[|p|..] == t;
    ExtractShift(p + t, |p|, t, 0);
  }

  /** The first of several joined blocks is extracted first, and the scan
      goes on with the join of the others. */
  lemma ExtractJoinedHead(blocks: seq<string>, r: string)
    requires |blocks| > 1 && FenceFree(blocks)
    ensures ExtractFrom(Join("\n\n", Rewrapped(blocks)) + r, 0)
            == [blocks[0] + "\n"] + ExtractFrom(Join("\n\n", Rewrapped(blocks[1..])) + r, 0)
  {
    var b := blocks[0];
    var tail := Join("\n\n", Rewrapped(blocks[1..]));
    JoinRewrappedCons(blocks);
    FenceFreeTail(blocks);
    assert Join("\n\n", Rewrapped(blocks)) + r == Fenced(b) + ("\n\n" + (tail + r));
    ExtractFencedThen(b, "\n\n" + (tail + r));
    assert Avoids("\n\n", '`');
    ExtractAfterPlain("\n\n", tail + r);
  }

  /** The only joined block is extracted, and the scan goes on after it. */
  lemma ExtractJoinedLast(blocks: seq<string>, r: string)
    requires |blocks| == 1 && FenceFree(blocks)
    ensures ExtractFrom(Join("\n\n", Rewrapped(blocks)) + r, 0) == EachFollowedBy(blocks, "\n") + ExtractFrom(r, 0)
  {
    JoinRewrappedCons(blocks);
    FenceFreeTail(blocks);
    ExtractFencedThen(blocks[0], r);
  }

  /** Two consecutive stretches of scanning put together. */
  lemma ExtractComposes(a: string, b: string, c: string, x: seq<string>, y: seq<string>, z: seq<string>)
    requires ExtractFrom(a, 0) == x + ExtractFrom(b, 0)
    requires ExtractFrom(b, 0) == y + ExtractFrom(c, 0)
    requires z == x + y
    ensures ExtractFrom(a, 0) == z + ExtractFrom(c, 0)
  {
  }

  /** Fenced blocks joined by blank lines are extracted again, in order,
      each with the newline its fence adds, and the scan goes on with the
      text after them. */
  lemma {:induction false} ExtractJoinedFences(blocks: seq<string>, r: string)
    requires FenceFree(blocks)
    ensures ExtractFrom(Join("\n\n", Rewrapped(blocks)) + r, 0) == EachFollowedBy(blocks, "\n") + ExtractFrom(r, 0)
    decreases |blocks|
  {
    if blocks == [] {
      assert Join("\n\n", Rewrapped(blocks)) + r == r;
    } else if |blocks| == 1 {
      ExtractJoinedLast(blocks, r);
    } else {
      FenceFreeTail(blocks);
      ExtractJoinedFences(blocks[1..], r);
      ExtractJoinedHead(blocks, r);
      ExtractComposes(Join("\n\n", Rewrapped(blocks)) + r, Join("\n\n", Rewrapped(blocks[1..])) + r, r,
        [blocks[0] + "\n"], EachFollowedBy(blocks[1..], "\n"), EachFollowedBy(blocks, "\n"));
    }
  }

  /** Extracting from text laid out as a backtick-free preamble, blocks
      re-wrapped and joined by blank lines, a backtick-free middle and then
      any text `q` gives the blocks back, in order, followed by the blocks of
      `q` itself. */
  lemma ExtractAroundJoinedFences(pre: string, blocks: seq<string>, mid: string, q: string)
    requires Avoids(pre, '`') && Avoids(mid, '`') && FenceFree(blocks)
    ensures ExtractMermaidBlocks(pre + Join("\n\n", Rewrapped(blocks)) + mid + q)
            == EachFollowedBy(blocks, "\n") + ExtractMermaidBlocks(q)
  {
    var joined := Join("\n\n", Rewrapped(blocks));
    assert pre + joined + mid + q == pre + (joined + (mid + q));
    ExtractAfterPlain(pre, joined + (mid + q));
    ExtractJoinedFences(blocks, mid + q);
    ExtractAfterPlain(mid, q);
  }

  /** An opener starts with a closing fence's three backticks. */
  lemma OpenerHoldsFence(s: string, i: nat)
    ensures OpensAt(s, i) ==> Contains(s, Fence)
  {
    if OpensAt(s, i) {
      assert s[i..i + |Fence|] == s[i..][..|Opener|][..|Fence|];
      ContainsAt(s, Fence, i);
    }
  }

  /** Re-extracting from an extracted block finds nothing: a block holds no
      closing fence, so it cannot hold a whole fenced block. */
  lemma ReExtractingABlockFindsNothing(markdown: string, j: nat)
    requires j < |ExtractMermaidBlocks(markdown)|
    ensures ExtractMermaidBlocks(ExtractMermaidBlocks(markdown)[j]) == []
  {
    var b := ExtractMermaidBlocks(markdown)[j];
    forall i | 0 <= i <= |b| ensures !OpensAt(b, i) {
      OpenerHoldsFence(b, i);
    }
    ExtractFromDone(b, 0);
  }
}
