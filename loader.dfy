/** Loading a .loc file into the store. Each line of the text is trimmed;
    comment lines, lines without six numeric fields and lines whose remainder
    does not open with a quote are skipped; every other line becomes a region
    named by the text between the opening quote and the last byte of the line.
    What each line yields is a pure function of the text (ParseLine), and the
    whole load is the file-order fold of the outcomes (Fold). */
module Loader {
  import opened Text
  import opened Fields
  import opened Regions
  import opened Store

  /** Room for the name: a 32-byte buffer holding a NUL-terminated string. */
  const MaxName: nat := 31

  /** How the text after the sixth field reads as a name. */
  datatype NameResult =
    | NotQuoted          // nothing left, or it does not open with '"'
    | NegativeLength     // the remainder is the single byte '"'
    | Name(text: string)

  /** The name at cursor c of a trimmed line ending at e: the byte at c must
      be '"'; the last byte of the line is dropped without looking at it; what
      lies between is cut to MaxName bytes. */
  function ExtractName(s: seq<char>, c: nat, e: nat): (r: NameResult)
    requires c <= e <= |s|
    ensures r.NotQuoted? <==> c == e || s[c] != '"'
    ensures r.NegativeLength? <==> c + 1 == e && s[c] == '"'
    ensures r.Name? ==>
      && c + 2 <= e && s[c] == '"'
      && |r.text| <= MaxName && c + 1 + |r.text| <= e - 1
      && r.text == s[c + 1..c + 1 + |r.text|]
      && (|r.text| < MaxName ==> r.text == s[c + 1..e - 1])
  {
    if c >= e || s[c] != '"' then NotQuoted
    else
      var len: int := if (e - 1) - (c + 1) < MaxName then (e - 1) - (c + 1) else MaxName;
      if len < 0 then NegativeLength else Name(s[c + 1..c + 1 + len])
  }

  /** A quoted name of at most MaxName bytes is read back exactly; a longer
      one is read back cut to its first MaxName bytes. */
  lemma NameRoundTrip(s: seq<char>, c: nat, name: string)
    requires c + |name| + 2 <= |s|
    requires s[c..c + |name| + 2] == ['"'] + name + ['"']
    ensures |name| <= MaxName ==> ExtractName(s, c, c + |name| + 2) == Name(name)
    ensures |name| > MaxName ==> ExtractName(s, c, c + |name| + 2) == Name(name[..MaxName])
  {
    var w := s[c..c + |name| + 2];
    assert s[c] == w[0] == '"';
    assert forall i | 0 <= i < |name| :: s[c + 1 + i] == w[1 + i] == name[i];
    assert s[c + 1..c + 1 + |name|] == name;
    if |name| > MaxName {
      assert s[c + 1..c + 1 + MaxName] == s[c + 1..c + 1 + |name|][..MaxName];
    }
  }

  /** The trimmed line [b, e) opens with "//". */
  predicate IsComment(s: seq<char>, b: nat, e: nat)
    requires b <= e <= |s|
  {
    b + 2 <= e && s[b] == '/' && s[b + 1] == '/'
  }

  /** What one line contributes to the store. */
  datatype LineOutcome =
    | Skip               // comment, too few fields, or no quoted name
    | Accept(region: Region)
    | Undefined          // the name copy is given a negative length

  /** The outcome of a non-comment line, given its fields and the end e of
      the trimmed line: exactly six fields and a quoted name make a region,
      the first three fields one corner and the next three the other. */
  function ParseFields(s: seq<char>, f: FieldScan, e: nat, atof: (seq<char>, nat) -> real): (o: LineOutcome)
    requires f.cursor <= e <= |s|
    ensures o.Accept? ==> WellFormed(o.region) && |o.region.name| <= MaxName
  {
    if |f.starts| != FullLimit then Skip
    else
      match ExtractName(s, f.cursor, e)
      case NotQuoted => Skip
      case NegativeLength => Undefined
      case Name(n) =>
        var v := f.starts;
        Accept(MakeRegion(Vec3(atof(s, v[0]), atof(s, v[1]), atof(s, v[2])),
                          Vec3(atof(s, v[3]), atof(s, v[4]), atof(s, v[5])), n))
  }

  /** The outcome of one raw line: trim it, skip comments, read the fields
      and the name. */
  function ParseLine(s: seq<char>, line: Span, atof: (seq<char>, nat) -> real): (o: LineOutcome)
    requires line.lo <= line.hi <= |s|
    ensures o.Accept? ==> WellFormed(o.region) && |o.region.name| <= MaxName
  {
    var t := TrimmedSpan(s, line);
    if IsComment(s, t.lo, t.hi) then Skip
    else ParseFields(s, LineFields(s, t.lo, t.hi), t.hi, atof)
  }

  /** A line whose trimmed text opens with "//" adds nothing. */
  lemma CommentSkipped(s: seq<char>, line: Span, atof: (seq<char>, nat) -> real)
    requires line.lo <= line.hi <= |s|
    requires var t := TrimmedSpan(s, line); IsComment(s, t.lo, t.hi)
    ensures ParseLine(s, line, atof) == Skip
  {
  }

  /** An empty or all-blank line yields no field and adds nothing. */
  lemma BlankLineSkipped(s: seq<char>, line: Span, atof: (seq<char>, nat) -> real)
    requires line.lo <= line.hi <= |s|
    requires forall k | line.lo <= k < line.hi :: IsBlank(s[k])
    ensures var t := TrimmedSpan(s, line); |LineFields(s, t.lo, t.hi).starts| == 0
    ensures ParseLine(s, line, atof) == Skip
  {
    TrimmedEmptyIffBlank(s, line);
    var t := TrimmedSpan(s, line);
    FieldCount(s, t.lo, t.hi);
  }

  /** A line where none of the first three fields is followed by a comma has
      at most three fields and adds nothing. */
  lemma NoCommaSkipped(s: seq<char>, line: Span, atof: (seq<char>, nat) -> real)
    requires line.lo <= line.hi <= |s|
    requires var t := TrimmedSpan(s, line); var f := LineFields(s, t.lo, t.hi);
      forall k | 0 <= k < |f.starts| && k < ShortLimit :: !CommaAfter(s, f.starts[k], t.hi)
    ensures ParseLine(s, line, atof) == Skip
  {
    var t := TrimmedSpan(s, line);
    FieldCount(s, t.lo, t.hi);
  }

  /** The negative-length copy happens exactly on a non-comment line with six
      fields whose remainder is the single byte '"'. */
  lemma UndefinedIffLoneQuote(s: seq<char>, line: Span, atof: (seq<char>, nat) -> real)
    requires line.lo <= line.hi <= |s|
    ensures var t := TrimmedSpan(s, line); var f := LineFields(s, t.lo, t.hi);
      ParseLine(s, line, atof) == Undefined <==>
        && !IsComment(s, t.lo, t.hi)
        && |f.starts| == FullLimit
        && f.cursor + 1 == t.hi && s[f.cursor] == '"'
  {
  }

  /** The fields and the remainder make a region exactly when there were six
      fields and the remainder opens with '"' and is at least two bytes long;
      the region is then built from the six values in order, and its name is
      the bytes after the opening quote, up to but not including the last byte
      of the line, cut to MaxName bytes. */
  lemma AcceptedRegion(s: seq<char>, f: FieldScan, e: nat, atof: (seq<char>, nat) -> real)
    requires f.cursor <= e <= |s|
    ensures ParseFields(s, f, e, atof).Accept? <==>
      |f.starts| == FullLimit && f.cursor + 2 <= e && s[f.cursor] == '"'
    ensures ParseFields(s, f, e, atof).Accept? ==>
      var v := f.starts; var c := f.cursor; var r := ParseFields(s, f, e, atof).region;
      && r == MakeRegion(Vec3(atof(s, v[0]), atof(s, v[1]), atof(s, v[2])),
                         Vec3(atof(s, v[3]), atof(s, v[4]), atof(s, v[5])), r.name)
      && r.name == s[c + 1..c + 1 + |r.name|]
      && |r.name| == (if e - c - 2 < MaxName then e - c - 2 else MaxName)
  {
  }

  /** When the fields of the span [lo, hi), which starts at a non-blank byte,
      make a region: there are six fields, one of the first three followed by
      a comma, each starting at a non-blank byte of the span, in increasing
      order. */
  lemma AcceptedFields(s: seq<char>, lo: nat, hi: nat, atof: (seq<char>, nat) -> real)
    requires lo <= hi <= |s| && (lo == hi || !IsBlank(s[lo]))
    requires ParseFields(s, LineFields(s, lo, hi), hi, atof).Accept?
    ensures var v := LineFields(s, lo, hi).starts;
      && |v| == FullLimit
      && CommaAmong(s, v, 0, hi)
      && (forall k | 0 <= k < |v| :: lo <= v[k] < hi && !IsBlank(s[v[k]]))
      && (forall k | 0 < k < |v| :: v[k - 1] < v[k])
  {
    assert |LineFields(s, lo, hi).starts| == FullLimit;
    FieldCount(s, lo, hi);
    ScanStarts(s, lo, hi, [], ShortLimit);
  }

  /** An accepted line is not a comment, its fields are as AcceptedFields
      describes, and what it yields is what its fields and the remainder of
      the trimmed line make of it. */
  lemma AcceptedLine(s: seq<char>, line: Span, atof: (seq<char>, nat) -> real)
    requires line.lo <= line.hi <= |s|
    requires ParseLine(s, line, atof).Accept?
    ensures var t := TrimmedSpan(s, line); var f := LineFields(s, t.lo, t.hi); var v := f.starts;
      && !IsComment(s, t.lo, t.hi)
      && |v| == FullLimit
      && CommaAmong(s, v, 0, t.hi)
      && (forall k | 0 <= k < |v| :: t.lo <= v[k] < t.hi && !IsBlank(s[v[k]]))
      && (forall k | 0 < k < |v| :: v[k - 1] < v[k])
      && ParseLine(s, line, atof) == ParseFields(s, f, t.hi, atof)
  {
    var t := TrimmedSpan(s, line);
    assert !IsComment(s, t.lo, t.hi);
    AcceptedFields(s, t.lo, t.hi, atof);
  }

  /** The outcome of every line, in file order. */
  function Outcomes(s: seq<char>, lines: seq<Span>, atof: (seq<char>, nat) -> real): (os: seq<LineOutcome>)
    requires forall k | 0 <= k < |lines| :: lines[k].lo <= lines[k].hi <= |s|
    ensures |os| == |lines|
  {
    if lines == [] then []
    else [ParseLine(s, lines[0], atof)] + Outcomes(s, lines[1..], atof)
  }

  /** Every outcome is the outcome of the line at the same position. */
  lemma {:induction false} OutcomesAt(s: seq<char>, lines: seq<Span>, atof: (seq<char>, nat) -> real)
    requires forall k | 0 <= k < |lines| :: lines[k].lo <= lines[k].hi <= |s|
    ensures forall k | 0 <= k < |lines| :: Outcomes(s, lines, atof)[k] == ParseLine(s, lines[k], atof)
  {
    if lines != [] {
      OutcomesAt(s, lines[1..], atof);
      assert forall k | 1 <= k < |lines| :: lines[1..][k - 1] == lines[k];
    }
  }

  /** The regions the outcomes yield, in file order, and whether the load
      stopped at a line whose name copy has a negative length. */
  datatype Collected = Collected(regions: seq<Region>, fault: bool)

  /** Regions already stored followed by what the remaining lines yield. */
  function Prepend(done: seq<Region>, rest: Collected): Collected {
    Collected(done + rest.regions, rest.fault)
  }

  /** The loader's walk over the outcomes: skipped lines add nothing, accepted
      lines add their region, and the first undefined one ends the load. */
  function Fold(os: seq<LineOutcome>): (c: Collected)
    ensures |c.regions| <= |os|
  {
    if os == [] then Collected([], false)
    else
      match os[0]
      case Skip => Fold(os[1..])
      case Undefined => Collected([], true)
      case Accept(r) => Prepend([r], Fold(os[1..]))
  }

  /** One outcome taken off the front: a skipped line leaves what is stored
      alone, an accepted one appends its region, an undefined one ends the
      load with what is stored so far. */
  lemma FoldStep(done: seq<Region>, o: LineOutcome, rest: seq<LineOutcome>)
    ensures Prepend(done, Fold([o] + rest)) ==
      if o.Undefined? then Collected(done, true)
      else Prepend(done + (if o.Accept? then [o.region] else []), Fold(rest))
  {
    assert ([o] + rest)[0] == o && ([o] + rest)[1..] == rest;
    if o.Accept? {
      assert done + ([o.region] + Fold(rest).regions) == (done + [o.region]) + Fold(rest).regions;
    }
  }

  /** Loading two runs of lines one after the other is loading the first, then,
      unless it stopped, the second after it. */
  lemma {:induction false} FoldAppend(a: seq<LineOutcome>, b: seq<LineOutcome>)
    ensures Fold(a + b) == if Fold(a).fault then Fold(a) else Prepend(Fold(a).regions, Fold(b))
  {
    if a != [] {
      assert (a + b)[0] == a[0] && (a + b)[1..] == a[1..] + b;
      FoldAppend(a[1..], b);
      if a[0].Accept? && !Fold(a[1..]).fault {
        assert [a[0].region] + (Fold(a[1..]).regions + Fold(b).regions)
            == ([a[0].region] + Fold(a[1..]).regions) + Fold(b).regions;
      }
    } else {
      assert a + b == b;
    }
  }

  /** The load stops early exactly when some line has the lone-quote remainder. */
  lemma {:induction false} FaultIffUndefined(os: seq<LineOutcome>)
    ensures Fold(os).fault <==> exists k :: 0 <= k < |os| && os[k].Undefined?
  {
    if os != [] {
      FaultIffUndefined(os[1..]);
      if !os[0].Undefined? && exists k :: 0 <= k < |os| && os[k].Undefined? {
        var k :| 0 <= k < |os| && os[k].Undefined?;
        assert os[1..][k - 1] == os[k];
      }
    }
  }

  /** The regions of the accepted lines, in file order, regardless of faults. */
  function Accepted(os: seq<LineOutcome>): seq<Region> {
    if os == [] then []
    else Accepted(os[..|os| - 1]) + (if os[|os| - 1].Accept? then [os[|os| - 1].region] else [])
  }

  /** Accepted keeps file order across a split. */
  lemma {:induction false} AcceptedAppend(a: seq<LineOutcome>, b: seq<LineOutcome>)
    ensures Accepted(a + b) == Accepted(a) + Accepted(b)
    decreases |b|
  {
    if b != [] {
      var b' := b[..|b| - 1];
      assert (a + b)[..|a + b| - 1] == a + b';
      AcceptedAppend(a, b');
    } else {
      assert a + b == a;
    }
  }

  /** Without a fault, the load yields exactly the accepted lines' regions, in
      file order. */
  lemma {:induction false} FoldAccepted(os: seq<LineOutcome>)
    ensures !Fold(os).fault ==> Fold(os).regions == Accepted(os)
  {
    if os != [] {
      FoldAccepted(os[1..]);
      assert os == [os[0]] + os[1..];
      AcceptedAppend([os[0]], os[1..]);
      assert [os[0]][..0] == [];
    }
  }

  /** A load that stops does so at the first line with the lone-quote
      remainder, keeping the regions of the accepted lines before it. */
  lemma {:induction false} FoldStopsAtFirstUndefined(os: seq<LineOutcome>, k: nat)
    requires k < |os| && os[k].Undefined? && forall j | 0 <= j < k :: !os[j].Undefined?
    ensures Fold(os) == Collected(Accepted(os[..k]), true)
  {
    if k > 0 {
      assert forall j | 0 <= j < k - 1 :: os[1..][j] == os[j + 1];
      FoldStopsAtFirstUndefined(os[1..], k - 1);
      assert os[1..][..k - 1] == os[1..k];
      assert os[..k] == [os[0]] + os[1..k];
      AcceptedAppend([os[0]], os[1..k]);
      assert [os[0]][..0] == [];
    }
  }

  /** The outcomes from cursor text on: that of the line ending at the first
      terminator, then those from the start of the next line. */
  lemma NextOutcome(s: seq<char>, text: nat, end: nat, atof: (seq<char>, nat) -> real)
    requires text < end <= |s|
    ensures var e := LineEnd(s, text, end);
      Outcomes(s, Lines(s, text, end), atof)
      == [ParseLine(s, Span(text, e), atof)] + Outcomes(s, Lines(s, NextLineStart(s, e, end), end), atof)
  {
    var ls := Lines(s, text, end);
    assert ls[1..] == Lines(s, NextLineStart(s, LineEnd(s, text, end), end), end);
  }

  /** The text of the file: its bytes up to the first NUL. */
  function FileText(data: seq<char>): (s: seq<char>)
    ensures s <= data && forall k | 0 <= k < |s| :: s[k] != '\0'
    ensures |s| == |data| || data[|s|] == '\0'
  {
    data[..CStrLen(data)]
  }

  /** What loading the file data into a cleared store yields. */
  function LoadSpec(data: seq<char>, atof: (seq<char>, nat) -> real): (c: Collected)
    ensures var s := FileText(data); |c.regions| <= |Lines(s, 0, |s|)|
  {
    var s := FileText(data);
    Fold(Outcomes(s, Lines(s, 0, |s|), atof))
  }

  /** The outcomes of a load are those of the file's lines, in order; the load
      stops early exactly when one of them has the lone-quote remainder, and
      otherwise yields the regions of the accepted lines, in file order. */
  lemma LoadSpecOutcomes(data: seq<char>, atof: (seq<char>, nat) -> real)
    ensures var s := FileText(data); var ls := Lines(s, 0, |s|); var os := Outcomes(s, ls, atof);
      && |os| == |ls|
      && (forall k | 0 <= k < |ls| :: os[k] == ParseLine(s, ls[k], atof))
      && (LoadSpec(data, atof).fault <==> exists k :: 0 <= k < |os| && os[k].Undefined?)
      && (!LoadSpec(data, atof).fault ==> LoadSpec(data, atof).regions == Accepted(os))
  {
    var s := FileText(data);
    var ls := Lines(s, 0, |s|);
    OutcomesAt(s, ls, atof);
    FaultIffUndefined(Outcomes(s, ls, atof));
    FoldAccepted(Outcomes(s, ls, atof));
  }

  /** The file as the loader finds it. */
  datatype FileState =
    | Missing            // no such file
    | NoData             // the file loader returned nothing
    | Present(data: seq<char>)

  datatype LoadResult =
    | NoMapLoaded        // returned false before touching the store
    | FileNotFound       // returned false after clearing the store
    | FileEmptyOrCorrupt // returned false after clearing the store
    | Loaded             // returned true
    | NegativeNameLength // the name copy was given a negative length

  /** The name copy: past the opening quote, up to the byte before the last
      one of the line, at most MaxName bytes. */
  method CopyName(s: seq<char>, linetext: nat, lineend: nat) returns (r: NameResult)
    requires linetext <= lineend <= |s|
    ensures r == ExtractName(s, linetext, lineend)
  {
    if linetext >= lineend || s[linetext] != '"' {
      return NotQuoted;
    }
    var last: int := lineend - 1;
    var first: int := linetext + 1;
    var len := if last - first < MaxName then last - first else MaxName;
    if len < 0 {
      return NegativeLength;
    }
    return Name(s[first..first + len]);
  }

  /** The fields and name of a trimmed, non-comment line [b, e): the field
      loop, the six-field test and the name copy. */
  method ReadFields(s: seq<char>, b: nat, e: nat, atof: (seq<char>, nat) -> real)
    returns (o: LineOutcome, values: seq<real>, name: string)
    requires b <= e <= |s|
    ensures o == ParseFields(s, LineFields(s, b, e), e, atof)
    ensures o.Accept? ==>
      && |values| == FullLimit
      && o.region == MakeRegion(Vec3(values[0], values[1], values[2]), Vec3(values[3], values[4], values[5]), name)
  {
    name := "";
    var count, linetext;
    ghost var starts;
    count, linetext, values, starts := ScanFields(s, b, e, atof);
    if count != FullLimit {
      return Skip, values, name;
    }
    var n := CopyName(s, linetext, e);
    match n
    case NotQuoted =>
      return Skip, values, name;
    case NegativeLength =>
      return Undefined, values, name;
    case Name(text) =>
      name := text;
      o := Accept(MakeRegion(Vec3(values[0], values[1], values[2]), Vec3(values[3], values[4], values[5]), name));
  }

  /** The two trimming loops of the loop body: trailing blanks first, then
      leading ones. */
  method TrimLine(s: seq<char>, linestart: nat, lineend: nat) returns (b: nat, e: nat)
    requires linestart <= lineend <= |s|
    ensures Span(b, e) == TrimmedSpan(s, Span(linestart, lineend))
  {
    e := TrimTrailing(s, linestart, lineend);
    b := SkipBlanksFrom(s, linestart, e);
  }

  /** Reads one raw line [linestart, lineend) as the loader's loop body does:
      the trimming loops, the comment test, then the fields and the name.
      An accepted line also hands back the six raw values and the name it
      passes on to SetLoc. */
  method ReadLine(s: seq<char>, linestart: nat, lineend: nat, atof: (seq<char>, nat) -> real)
    returns (o: LineOutcome, values: seq<real>, name: string)
    requires linestart <= lineend <= |s|
    ensures o == ParseLine(s, Span(linestart, lineend), atof)
    ensures o.Accept? ==>
      && |values| == FullLimit
      && o.region == MakeRegion(Vec3(values[0], values[1], values[2]), Vec3(values[3], values[4], values[5]), name)
  {
    var b, e := TrimLine(s, linestart, lineend);
    if b + 2 <= e && s[b] == '/' && s[b + 1] == '/' {
      return Skip, [], "";
    }
    assert !IsComment(s, b, e);
    o, values, name := ReadFields(s, b, e, atof);
  }

  /** Finds the end of the line starting at text and steps over its
      terminator, taking "\r\n" as one. */
  method NextLine(s: seq<char>, text: nat) returns (lineend: nat, next: nat)
    requires text < |s|
    ensures lineend == LineEnd(s, text, |s|) && next == NextLineStart(s, lineend, |s|)
    ensures text < next
  {
    var end := |s|;
    next := FindLineEnd(s, text, end);
    lineend := next;
    if next + 1 < end && s[next] == '\r' && s[next + 1] == '\n' {
      next := next + 1;
    }
    if next < end {
      next := next + 1;
    }
  }

  /** Puts the six values of an accepted line into the corner arrays, first
      three then next three, and hands them with the name to SetLoc. */
  method StoreRegion(store: LocationStore, mins: array<real>, maxs: array<real>, values: seq<real>, name: string)
    requires mins.Length == 3 && maxs.Length == 3 && mins != maxs && |values| == FullLimit
    modifies store, mins, maxs
    ensures store.regions == old(store.regions) +
      [MakeRegion(Vec3(values[0], values[1], values[2]), Vec3(values[3], values[4], values[5]), name)]
    ensures forall n | 0 <= n < 3 ::
      mins[n] == Min(values[n], values[n + 3]) && maxs[n] == Max(values[n], values[n + 3])
    ensures old(store.Valid()) ==> store.Valid()
  {
    mins[0], mins[1], mins[2] := values[0], values[1], values[2];
    maxs[0], maxs[1], maxs[2] := values[3], values[4], values[5];
    assert ToVec3(mins[..]) == Vec3(values[0], values[1], values[2]);
    assert ToVec3(maxs[..]) == Vec3(values[3], values[4], values[5]);
    store.SetLoc(mins, maxs, Some(name));
  }

  /** One pass of the line loop from cursor text: find the end of the line,
      step over its terminator, read the line, and store its region if it is
      accepted. `o` is the line's outcome, the first of those still to come. */
  method LoadLine(store: LocationStore, s: seq<char>, text: nat, mins: array<real>, maxs: array<real>,
                  atof: (seq<char>, nat) -> real)
    returns (next: nat, fault: bool, ghost o: LineOutcome)
    requires text < |s| && mins.Length == 3 && maxs.Length == 3 && mins != maxs && store.Valid()
    modifies store, mins, maxs
    ensures text < next <= |s|
    ensures Outcomes(s, Lines(s, text, |s|), atof) == [o] + Outcomes(s, Lines(s, next, |s|), atof)
    ensures fault == o.Undefined?
    ensures store.regions == old(store.regions) + (if o.Accept? then [o.region] else [])
    ensures store.Valid()
  {
    // mins and maxs are scratch: an accepted line overwrites all six entries
    // before SetLoc reads them, and nothing reads them afterwards
    var lineend;
    lineend, next := NextLine(s, text);
    NextOutcome(s, text, |s|, atof);
    var outcome, values, name := ReadLine(s, text, lineend, atof);
    o := outcome;
    fault := outcome.Undefined?;
    if outcome.Accept? {
      StoreRegion(store, mins, maxs, values, name);
    }
  }

  /** The line loop over the file text s: every line is read in turn, each
      accepted line appending its region at the tail of the store, and a line
      whose name copy has a negative length ending the loop at once. */
  method LoadText(store: LocationStore, s: seq<char>, atof: (seq<char>, nat) -> real) returns (fault: bool)
    requires store.Valid()
    modifies store
    ensures Collected(store.regions, fault) == Prepend(old(store.regions), Fold(Outcomes(s, Lines(s, 0, |s|), atof)))
    ensures store.Valid()
  {
    var end := |s|;
    ghost var spec := Prepend(store.regions, Fold(Outcomes(s, Lines(s, 0, end), atof)));
    var mins, maxs := new real[3], new real[3];
    var text := 0;
    while text < end
      invariant text <= end
      invariant spec == Prepend(store.regions, Fold(Outcomes(s, Lines(s, text, end), atof)))
      invariant store.Valid()
      decreases end - text
    {
      ghost var done := store.regions;
      ghost var o;
      text, fault, o := LoadLine(store, s, text, mins, maxs, atof);
      FoldStep(done, o, Outcomes(s, Lines(s, text, end), atof));
      if fault {
        return;
      }
    }
    assert Lines(s, text, end) == [];
    return false;
  }

  /** The load: with no map nothing happens; otherwise the store is cleared,
      and if the file has data its text is loaded line by line. */
  method LoadLocations(store: LocationStore, mapLoaded: bool, file: FileState, atof: (seq<char>, nat) -> real)
    returns (result: LoadResult)
    modifies store
    ensures !mapLoaded ==> result == NoMapLoaded && store.regions == old(store.regions)
    ensures mapLoaded && file.Missing? ==> result == FileNotFound && store.regions == []
    ensures mapLoaded && file.NoData? ==> result == FileEmptyOrCorrupt && store.regions == []
    ensures mapLoaded && file.Present? ==>
      var c := LoadSpec(file.data, atof);
      store.regions == c.regions && result == (if c.fault then NegativeNameLength else Loaded)
    ensures mapLoaded ==> store.Valid()
  {
    if !mapLoaded {
      return NoMapLoaded;
    }
    store.Clear();
    if file.Missing? {
      return FileNotFound;
    }
    if file.NoData? {
      return FileEmptyOrCorrupt;
    }
    var fault := LoadText(store, FileText(file.data), atof);
    result := if fault then NegativeNameLength else Loaded;
  }
}
