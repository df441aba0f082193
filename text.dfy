/** Cursor arithmetic over the .loc text: where the text ends, how it splits
    into lines, and how a line is trimmed. Positions are indices into the text;
    a span [lo, hi) stands for the bytes between two cursors. */
module Text {

  /** The loader's notion of whitespace: any byte not above the space. */
  predicate IsBlank(c: char) { c <= ' ' }

  predicate IsEol(c: char) { c == '\r' || c == '\n' }

  datatype Span = Span(lo: nat, hi: nat)

  /** Length of the C string held in data: up to the first NUL. */
  function CStrLen(data: seq<char>): (n: nat)
    ensures n <= |data|
    ensures forall k | 0 <= k < n :: data[k] != '\0'
    ensures n == |data| || data[n] == '\0'
  {
    if data == [] || data[0] == '\0' then 0
    else
      var n := 1 + CStrLen(data[1..]);
      assert forall k | 1 <= k < n :: data[k] == data[1..][k - 1];
      n
  }

  /** The first line terminator at or after i, or end when there is none. */
  function LineEnd(s: seq<char>, i: nat, end: nat): (r: nat)
    requires i <= end <= |s|
    ensures i <= r <= end
    ensures forall k | i <= k < r :: !IsEol(s[k])
    ensures r == end || IsEol(s[r])
    decreases end - i
  {
    if i == end || IsEol(s[i]) then i else LineEnd(s, i + 1, end)
  }

  /** Scans for the end of the line starting at `start`. */
  method FindLineEnd(s: seq<char>, start: nat, end: nat) returns (text: nat)
    requires start <= end <= |s|
    ensures text == LineEnd(s, start, end)
  {
    text := start;
    while text < end && !IsEol(s[text])
      invariant start <= text <= end
      invariant LineEnd(s, text, end) == LineEnd(s, start, end)
    {
      text := text + 1;
    }
  }

  /** Where the next line starts once the line ending at e is done: past one
      terminator, where "\r\n" is a single terminator. */
  function NextLineStart(s: seq<char>, e: nat, end: nat): (r: nat)
    requires e <= end <= |s|
    ensures e <= r <= end
    ensures e == end ==> r == end
    ensures e < end ==> (r == e + 1 || r == e + 2)
    ensures r == e + 2 <==> e + 1 < end && s[e] == '\r' && s[e + 1] == '\n'
  {
    var t := if e + 1 < end && s[e] == '\r' && s[e + 1] == '\n' then e + 1 else e;
    if t < end then t + 1 else t
  }

  /** The raw lines of text[pos..end]: the first ends at the first terminator,
      the rest are the lines after that terminator. */
  function Lines(s: seq<char>, pos: nat, end: nat): (ls: seq<Span>)
    requires pos <= end <= |s|
    ensures |ls| == 0 <==> pos == end
    ensures forall k | 0 <= k < |ls| :: pos <= ls[k].lo <= ls[k].hi <= end
    ensures forall k | 0 <= k < |ls| :: ls[k].lo < end
    decreases end - pos
  {
    if pos == end then []
    else
      var e := LineEnd(s, pos, end);
      [Span(pos, e)] + Lines(s, NextLineStart(s, e, end), end)
  }

  /** The lines cover text[pos..end] with nothing left over: each one is free
      of terminators and runs up to the next terminator or the end of the text,
      the first starts at pos, each later one starts just past the terminator
      of the one before, and past the last one's terminator the text ends. */
  lemma {:induction false} LinesCover(s: seq<char>, pos: nat, end: nat)
    requires pos <= end <= |s|
    ensures var ls := Lines(s, pos, end);
      && (forall k | 0 <= k < |ls| :: ls[k].hi == LineEnd(s, ls[k].lo, end))
      && (|ls| > 0 ==> ls[0].lo == pos && NextLineStart(s, ls[|ls| - 1].hi, end) == end)
      && (forall k | 0 <= k < |ls| - 1 :: ls[k + 1].lo == NextLineStart(s, ls[k].hi, end))
    decreases end - pos
  {
    if pos < end {
      var e := LineEnd(s, pos, end);
      var next := NextLineStart(s, e, end);
      LinesCover(s, next, end);
      var ls, rest := Lines(s, pos, end), Lines(s, next, end);
      assert forall k | 1 <= k < |ls| :: ls[k] == rest[k - 1];
    }
  }

  /** Drops trailing blanks from [lo, hi): the new end. */
  function TrimEnd(s: seq<char>, lo: nat, hi: nat): (r: nat)
    requires lo <= hi <= |s|
    ensures lo <= r <= hi
    ensures r == lo || !IsBlank(s[r - 1])
    ensures forall k | r <= k < hi :: IsBlank(s[k])
    decreases hi - lo
  {
    if lo < hi && IsBlank(s[hi - 1]) then TrimEnd(s, lo, hi - 1) else hi
  }

  /** Steps over blanks from c, never past hi. */
  function SkipBlanks(s: seq<char>, c: nat, hi: nat): (r: nat)
    requires c <= hi <= |s|
    ensures c <= r <= hi
    ensures r == hi || !IsBlank(s[r])
    ensures forall k | c <= k < r :: IsBlank(s[k])
    decreases hi - c
  {
    if c < hi && IsBlank(s[c]) then SkipBlanks(s, c + 1, hi) else c
  }

  /** The trailing-whitespace loop of the loader. */
  method TrimTrailing(s: seq<char>, linestart: nat, lineend: nat) returns (e: nat)
    requires linestart <= lineend <= |s|
    ensures e == TrimEnd(s, linestart, lineend)
  {
    e := lineend;
    while e > linestart && IsBlank(s[e - 1])
      invariant linestart <= e <= lineend
      invariant TrimEnd(s, linestart, e) == TrimEnd(s, linestart, lineend)
    {
      e := e - 1;
    }
  }

  /** The whitespace-skipping loop, used for leading blanks of a line and for
      the blanks after a numeric field. */
  method SkipBlanksFrom(s: seq<char>, c: nat, hi: nat) returns (r: nat)
    requires c <= hi <= |s|
    ensures r == SkipBlanks(s, c, hi)
  {
    r := c;
    while r < hi && IsBlank(s[r])
      invariant c <= r <= hi
      invariant SkipBlanks(s, r, hi) == SkipBlanks(s, c, hi)
    {
      r := r + 1;
    }
  }

  /** A line after trimming: empty, or it starts and ends with a non-blank
      byte, and only blanks were removed on either side. */
  function TrimmedSpan(s: seq<char>, line: Span): (t: Span)
    requires line.lo <= line.hi <= |s|
    ensures line.lo <= t.lo <= t.hi <= line.hi
    ensures t.lo == t.hi || (!IsBlank(s[t.lo]) && !IsBlank(s[t.hi - 1]))
    ensures forall k | line.lo <= k < t.lo :: IsBlank(s[k])
    ensures forall k | t.hi <= k < line.hi :: IsBlank(s[k])
  {
    var e := TrimEnd(s, line.lo, line.hi);
    Span(SkipBlanks(s, line.lo, e), e)
  }

  /** A line trims to nothing exactly when every byte of it is blank. */
  lemma TrimmedEmptyIffBlank(s: seq<char>, line: Span)
    requires line.lo <= line.hi <= |s|
    ensures var t := TrimmedSpan(s, line);
      t.lo == t.hi <==> forall k | line.lo <= k < line.hi :: IsBlank(s[k])
  {
  }

  /** Trimming a trimmed line changes nothing. */
  lemma TrimmedIdempotent(s: seq<char>, line: Span)
    requires line.lo <= line.hi <= |s|
    ensures TrimmedSpan(s, TrimmedSpan(s, line)) == TrimmedSpan(s, line)
  {
  }
}
