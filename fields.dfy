/** The numeric-field tokeniser of a .loc line. Where each field starts is
    decided by the bytes alone; the numeric value of a field is whatever the
    number conversion makes of the text at that position, so the conversion is
    a parameter `atof` and nothing here depends on how it parses. */
module Fields {
  import opened Text

  /** Fields read while no comma has been consumed. */
  const ShortLimit: nat := 3
  /** Fields read once a comma has been consumed among the first three. */
  const FullLimit: nat := 6

  /** The end of the number starting at c: the first blank or comma, or hi. */
  function TokenEnd(s: seq<char>, c: nat, hi: nat): (r: nat)
    requires c <= hi <= |s|
    ensures c <= r <= hi
    ensures forall k | c <= k < r :: !IsBlank(s[k]) && s[k] != ','
    ensures r == hi || IsBlank(s[r]) || s[r] == ','
    decreases hi - c
  {
    if c < hi && !IsBlank(s[c]) && s[c] != ',' then TokenEnd(s, c + 1, hi) else c
  }

  /** The loop that advances past a number. */
  method SkipToken(s: seq<char>, c: nat, hi: nat) returns (r: nat)
    requires c <= hi <= |s|
    ensures r == TokenEnd(s, c, hi)
  {
    r := c;
    while r < hi && !IsBlank(s[r]) && s[r] != ','
      invariant c <= r <= hi
      invariant TokenEnd(s, r, hi) == TokenEnd(s, c, hi)
    {
      r := r + 1;
    }
  }

  /** One field consumed: where the next one starts, and whether a comma was
      consumed on the way. */
  datatype Step = Step(next: nat, comma: bool)

  /** Past the number, past at most one comma, past the blanks after it. */
  function FieldStep(s: seq<char>, c: nat, hi: nat): (st: Step)
    requires c <= hi <= |s|
    ensures c <= st.next <= hi
    ensures st.next == hi || !IsBlank(s[st.next])
    ensures st.comma <==> TokenEnd(s, c, hi) < hi && s[TokenEnd(s, c, hi)] == ','
    ensures st.comma ==> forall k | TokenEnd(s, c, hi) < k < st.next :: IsBlank(s[k])
    ensures !st.comma ==> forall k | TokenEnd(s, c, hi) <= k < st.next :: IsBlank(s[k])
    ensures c < hi && !IsBlank(s[c]) ==> c < st.next
    ensures st.next >= TokenEnd(s, c, hi) + (if st.comma then 1 else 0)
  {
    var t := TokenEnd(s, c, hi);
    if t < hi && s[t] == ',' then Step(SkipBlanks(s, t + 1, hi), true)
    else Step(SkipBlanks(s, t, hi), false)
  }

  /** A comma under the cursor is a field of its own: the number there is
      empty, the comma is consumed, and the limit is raised. */
  lemma EmptyFieldCounts(s: seq<char>, c: nat, hi: nat, read: seq<nat>, limit: nat)
    requires c < hi <= |s| && s[c] == ',' && |read| < limit && (limit == ShortLimit || limit == FullLimit)
    ensures FieldStep(s, c, hi) == Step(SkipBlanks(s, c + 1, hi), true)
    ensures Scan(s, c, hi, read, limit) == Scan(s, SkipBlanks(s, c + 1, hi), hi, read + [c], FullLimit)
  {
  }

  /** Where the fields start, where the cursor stops, and the field limit at the end. */
  datatype FieldScan = FieldScan(starts: seq<nat>, cursor: nat, limit: nat)

  /** The fields of a line from cursor c on, when the fields starting at `read`
      have been read and the limit is `limit`: a field is read while fewer than
      `limit` have been read and the line is not used up; a comma consumed
      raises the limit to FullLimit. */
  function Scan(s: seq<char>, c: nat, hi: nat, read: seq<nat>, limit: nat): (r: FieldScan)
    requires c <= hi <= |s| && |read| <= limit && (limit == ShortLimit || limit == FullLimit)
    ensures c <= r.cursor <= hi
    ensures |read| <= |r.starts| <= FullLimit
    decreases FullLimit - |read|
  {
    if |read| >= limit || c >= hi then FieldScan(read, c, limit)
    else
      var st := FieldStep(s, c, hi);
      Scan(s, st.next, hi, read + [c], if st.comma then FullLimit else limit)
  }

  /** The fields of the trimmed line [lo, hi). */
  function LineFields(s: seq<char>, lo: nat, hi: nat): (r: FieldScan)
    requires lo <= hi <= |s|
    ensures lo <= r.cursor <= hi && |r.starts| <= FullLimit
    ensures lo == hi ==> r.starts == [] && r.cursor == lo
  {
    Scan(s, lo, hi, [], ShortLimit)
  }

  /** The field starting at c lies in the line and is followed by a comma. */
  predicate CommaAfter(s: seq<char>, c: nat, hi: nat) {
    c <= hi <= |s| && FieldStep(s, c, hi).comma
  }

  /** A scan keeps the fields already read. */
  lemma {:induction false} ScanKeeps(s: seq<char>, c: nat, hi: nat, read: seq<nat>, limit: nat)
    requires c <= hi <= |s| && |read| <= limit && (limit == ShortLimit || limit == FullLimit)
    ensures Scan(s, c, hi, read, limit).starts[..|read|] == read
    decreases FullLimit - |read|
  {
    if |read| >= limit || c >= hi {
    } else {
      var st := FieldStep(s, c, hi);
      var limit' := if st.comma then FullLimit else limit;
      ScanKeeps(s, st.next, hi, read + [c], limit');
      var r := Scan(s, st.next, hi, read + [c], limit').starts;
      assert r[..|read|] == r[..|read| + 1][..|read|];
    }
  }

  /** The limit only grows, no more fields than the final limit are read, and
      a scan stopping short of the limit stopped at the end of the line. */
  lemma {:induction false} ScanLimits(s: seq<char>, c: nat, hi: nat, read: seq<nat>, limit: nat)
    requires c <= hi <= |s| && |read| <= limit && (limit == ShortLimit || limit == FullLimit)
    ensures var r := Scan(s, c, hi, read, limit);
      && (r.limit == ShortLimit || r.limit == FullLimit) && limit <= r.limit
      && |r.starts| <= r.limit
      && (|r.starts| < r.limit ==> r.cursor == hi)
      && (|r.starts| == |read| ==> r.cursor == c)
    decreases FullLimit - |read|
  {
    if |read| >= limit || c >= hi {
    } else {
      var st := FieldStep(s, c, hi);
      ScanLimits(s, st.next, hi, read + [c], if st.comma then FullLimit else limit);
    }
  }

  /** Every field read from a non-blank cursor c on starts inside the line at
      a non-blank byte, the first one at c, each one after the previous. */
  lemma {:induction false} ScanStarts(s: seq<char>, c: nat, hi: nat, read: seq<nat>, limit: nat)
    requires c <= hi <= |s| && |read| <= limit && (limit == ShortLimit || limit == FullLimit)
    requires c == hi || !IsBlank(s[c])
    ensures var r := Scan(s, c, hi, read, limit);
      && (|r.starts| > |read| ==> r.starts[|read|] == c)
      && (forall k | |read| <= k < |r.starts| :: c <= r.starts[k] < hi && !IsBlank(s[r.starts[k]]))
      && (forall k | |read| < k < |r.starts| :: r.starts[k - 1] < r.starts[k])
    decreases FullLimit - |read|
  {
    if |read| >= limit || c >= hi {
    } else {
      var st := FieldStep(s, c, hi);
      var limit' := if st.comma then FullLimit else limit;
      var r := Scan(s, st.next, hi, read + [c], limit').starts;
      assert Scan(s, c, hi, read, limit).starts == r;
      ScanStarts(s, st.next, hi, read + [c], limit');
      ScanKeeps(s, st.next, hi, read + [c], limit');
      assert r[|read|] == r[..|read| + 1][|read|] == c;
    }
  }

  /** Some field from index `from` on, among the first three, is followed by a comma. */
  predicate CommaAmong(s: seq<char>, starts: seq<nat>, from: nat, hi: nat) {
    exists k :: from <= k < |starts| && k < ShortLimit && CommaAfter(s, starts[k], hi)
  }

  /** Peels the first candidate field off CommaAmong. */
  lemma CommaAmongStep(s: seq<char>, starts: seq<nat>, from: nat, hi: nat)
    requires from < |starts|
    ensures CommaAmong(s, starts, from, hi) <==>
      (from < ShortLimit && CommaAfter(s, starts[from], hi)) || CommaAmong(s, starts, from + 1, hi)
  {
    if CommaAmong(s, starts, from, hi) {
      var k :| from <= k < |starts| && k < ShortLimit && CommaAfter(s, starts[k], hi);
      if k > from {
        assert CommaAmong(s, starts, from + 1, hi);
      }
    }
  }

  /** The field limit ends up raised exactly when a comma was consumed while
      reading one of the first three fields. */
  lemma {:induction false} LimitRaised(s: seq<char>, c: nat, hi: nat, read: seq<nat>, limit: nat)
    requires c <= hi <= |s| && |read| <= limit && (limit == ShortLimit || limit == FullLimit)
    ensures var r := Scan(s, c, hi, read, limit);
      r.limit == FullLimit <==> limit == FullLimit || CommaAmong(s, r.starts, |read|, hi)
    decreases FullLimit - |read|
  {
    if |read| >= limit || c >= hi {
    } else {
      var st := FieldStep(s, c, hi);
      var limit' := if st.comma then FullLimit else limit;
      var r := Scan(s, st.next, hi, read + [c], limit');
      assert Scan(s, c, hi, read, limit) == r;
      LimitRaised(s, st.next, hi, read + [c], limit');
      ScanKeeps(s, st.next, hi, read + [c], limit');
      assert r.starts[|read|] == r.starts[..|read| + 1][|read|] == c;
      CommaAmongStep(s, r.starts, |read|, hi);
      assert st.comma == CommaAfter(s, c, hi);
    }
  }

  /** How many fields a trimmed line [lo, hi) yields: six only if a comma was
      consumed among the first three; at most three if none was; fewer than
      six with a comma only when the line ran out; none on an empty line. */
  lemma FieldCount(s: seq<char>, lo: nat, hi: nat)
    requires lo <= hi <= |s|
    ensures var r := LineFields(s, lo, hi); var n := |r.starts|;
      && (n == FullLimit ==> CommaAmong(s, r.starts, 0, hi))
      && (!CommaAmong(s, r.starts, 0, hi) ==> n <= ShortLimit)
      && (CommaAmong(s, r.starts, 0, hi) && n < FullLimit ==> r.cursor == hi)
      && (lo == hi ==> n == 0)
  {
    ScanLimits(s, lo, hi, [], ShortLimit);
    LimitRaised(s, lo, hi, [], ShortLimit);
  }

  /** Advances the cursor past one field: the number, at most one comma, and
      the blanks after them. */
  method NextField(s: seq<char>, c: nat, hi: nat) returns (next: nat, comma: bool)
    requires c <= hi <= |s|
    ensures Step(next, comma) == FieldStep(s, c, hi)
  {
    next := SkipToken(s, c, hi);
    comma := false;
    if next < hi {
      if s[next] == ',' {
        next := next + 1;
        comma := true;
      }
      // the original tests the byte under the cursor even when the cursor
      // has reached the end of the line; the skip loop then does nothing,
      // so testing it only inside the line changes nothing
      if next < hi && IsBlank(s[next]) {
        next := SkipBlanksFrom(s, next, hi);
      }
    }
  }

  /** The field loop of the loader: reads the value of each field it meets
      (the first three are the corner `mins`, the next three `maxs`) and
      returns them with the number of fields read and where the cursor stopped. */
  method ScanFields(s: seq<char>, lo: nat, hi: nat, atof: (seq<char>, nat) -> real)
    returns (count: nat, cursor: nat, values: seq<real>, ghost starts: seq<nat>)
    requires lo <= hi <= |s|
    ensures starts == LineFields(s, lo, hi).starts && cursor == LineFields(s, lo, hi).cursor
    ensures count == |starts| == |values| <= FullLimit
    ensures forall k | 0 <= k < count :: values[k] == atof(s, starts[k])
  {
    var i := 0;
    var limit := ShortLimit;
    var linetext := lo;
    values, starts := [], [];
    while i < limit
      invariant 0 <= i <= limit && (limit == ShortLimit || limit == FullLimit)
      invariant lo <= linetext <= hi && |starts| == |values| == i
      invariant LineFields(s, lo, hi) == Scan(s, linetext, hi, starts, limit)
      invariant forall k | 0 <= k < i :: values[k] == atof(s, starts[k])
      decreases FullLimit - i
    {
      if linetext >= hi {
        break;
      }
      // a missing number reads as whatever atof makes of the text here
      values := values + [atof(s, linetext)];
      starts := starts + [linetext];
      var comma;
      linetext, comma := NextField(s, linetext, hi);
      if comma {
        limit := FullLimit;
      }
      i := i + 1;
    }
    count := i;
    cursor := linetext;
  }
}
