# ProQuake location files: loader, store and resolver

A model of `location.c`. That file keeps a list of named, axis-aligned boxes
("locations"). It fills the list from a map's `.loc` text file in the ProQuake
format. It then names any point by the box the point lies in or lies nearest to.

- **Loading.** The text is taken up to its first NUL and split into lines on
  `\n`, `\r\n` or a lone `\r`. Each line is trimmed of bytes up to `' '`, and
  `//` comment lines are skipped. Up to three numeric fields are read, or six
  once a comma has been consumed among the first three. After exactly six
  fields the remainder must open with `"`. The name is the bytes between that
  quote and the last byte of the line, cut to 31 bytes.
- **Store.** A region is built by ordering each axis on its own and taking the
  extent sum of the ordered bounds. Only after that is Z padded by 32 on each
  side. The region is appended at the tail of the list.
- **Resolving.** The resolver scans the list with an L1 "outsideness" score. It
  returns at once on a score below 0.01. Otherwise it keeps the first region
  with the smallest score below 999999, and falls back to `"somewhere"`.

The model takes the source's own form:

- `Store.LocationStore` is a class whose `regions` sequence stands for the linked list.
- `SetLoc` swaps the caller's corner arrays in place.
- The loader's loops are methods with loop invariants. Each is proved equal to a
  pure specification: `Text.Lines`, `Text.TrimmedSpan`, `Fields.LineFields`,
  `Loader.ExtractName`, `Loader.ParseLine`, `Loader.Fold`.
- The resolver is a read-only loop, proved against the selection predicates
  `FirstNear` and `FirstMin`.

Modules:

| module | file | contents |
|---|---|---|
| `Regions` | `regions.dfy` | boxes, region construction, the score |
| `Store` | `store.dfy` | the location list |
| `Resolver` | `resolver.dfy` | `LOC_GetLocation` |
| `Text` | `text.dfy` | text length, line splitting, trimming |
| `Fields` | `fields.dfy` | the numeric-field tokeniser |
| `Loader` | `loader.dfy` | `LOC_LoadLocations` |

Three behaviours of the code shape the model:

- **Extent sum.** The sum is taken before the Z padding (location.c:59-73), so
  the box (0,0,0)–(10,10,10) gets a sum of 30. Every stored region therefore
  scores at least 64, and the resolver's early return on a score below 0.01
  never fires (`Resolver.NeverNear`).
- **No world loaded.** The code returns before `LOC_Clear_f` (location.c:90-98),
  so the store is unchanged (`Loader.LoadLocations`).
- **Lone-quote remainder.** When the text after the sixth field is a lone `"`,
  `memcpy` is given the length -1 (location.c:175-178). The model stops the
  load at that line with the result `NegativeNameLength`.

## Model

| member | source | states |
|---|---|---|
| Regions.MakeRegion | location.c:58-73 | every region built is well formed: each axis ordered, Z widened by 32 on both sides, the sum equal to the extent of the unpadded box |
| Regions.MakeRegionBounds | location.c:59-73 | each stored axis is the raw pair, kept or swapped so that it is ordered; Z additionally padded by 32; sum is \|dx\|+\|dy\|+\|dz\| of the raw corners |
| Regions.StoredBoxExamples | location.c:59-73 | (0,0,0),(10,10,10) is stored as (0,0,-32),(10,10,42) with sum 30; corners inverted on X are swapped on X only |
| Regions.AxisScore | location.c:202-204 | on one ordered axis, \|a-q\|+\|b-q\| is the extent plus twice the gap from q to [a,b]; the gap is non-negative and zero exactly inside |
| Regions.Score | location.c:202-204 | the sum of each axis's distances from p to the two bounds, minus the cached sum; never below 64 for a built region |
| Regions.ScoreIsBoxDistance | location.c:202-204 | the score of a stored region is 64 plus twice the L1 distance to its padded box, hence at least 64, and exactly 64 inside the box |
| Store.LocationStore.constructor | location.c:15-19 | a new store holds no regions |
| Store.LocationStore.Clear | location.c:35-42 | after clearing, the store holds no regions |
| Store.LocationStore.SetLoc | location.c:44-78 | a missing name changes nothing; otherwise the corner arrays hold per-axis min and max, and the region built from the old corners is appended at the tail, earlier regions unchanged; validity is kept |
| Resolver.GetLocation | location.c:190-223 | returns the first region scoring below 0.01 if any; else, if all score at least 0.01, the first region of least score below 999999; "somewhere" when none scores below 999999 |
| Resolver.FirstNearUnique | location.c:200-209 | the first region below 0.01 is unique |
| Resolver.FirstMinUnique | location.c:211-215 | the first least-score region is unique, so ties go to the earliest |
| Resolver.FirstMinExists | location.c:211-221 | when some region scores below 999999, a first minimum exists, so the resolver's cases cover every store |
| Resolver.NeverNear | location.c:202-209 | on a store of built regions every score is at least 64, so no region is ever near and the early return is dead |
| Resolver.FirstMinIsNearestBox | location.c:200-221 | on a store of built regions, the first minimum is exactly the first region whose padded box is nearest in L1 distance, among those closer than (999999-64)/2 |
| Resolver.ContainedPointResolves | location.c:200-221 | a point inside the box of region k and of no earlier region resolves to region k |
| Text.CStrLen | location.c:116 | the text length is the position of the first NUL, or the whole buffer |
| Text.LineEnd | location.c:123-124 | the line end is the first '\r' or '\n' at or after the start, or the end of the text |
| Text.FindLineEnd | location.c:123-125 | the scan loop stops at LineEnd |
| Text.NextLineStart | location.c:126-129 | the next line starts one byte past the line end, two for "\r\n", and never past the end of the text |
| Text.Lines | location.c:120-129 | the lines are empty exactly when the text is; each lies within it and starts before its end, so no empty line follows the last terminator |
| Text.LinesCover | location.c:120-129 | the lines cover the text: each ends at its first terminator, the first starts at the cursor, each later one just past the previous terminator, and the last terminator ends the text |
| Text.TrimEnd | location.c:131-132 | only trailing blanks are dropped, and the new end follows a non-blank byte or is the start |
| Text.SkipBlanks | location.c:134-135 | only blanks are skipped, and the cursor stops at a non-blank byte or the end |
| Text.TrimTrailing | location.c:131-132 | the trailing-whitespace loop computes TrimEnd |
| Text.SkipBlanksFrom | location.c:134-135 | the blank-skipping loop computes SkipBlanks |
| Text.TrimmedSpan | location.c:130-135 | a trimmed line is empty or starts and ends with a byte above ' ', and only blanks were removed on either side |
| Text.TrimmedEmptyIffBlank | location.c:130-135 | a line trims to nothing exactly when it is all blank |
| Text.TrimmedIdempotent | location.c:130-135 | trimming twice is trimming once |
| Fields.TokenEnd | location.c:151-152 | a number ends at the first blank or comma, and holds neither |
| Fields.SkipToken | location.c:151-152 | the number-skipping loop computes TokenEnd |
| Fields.FieldStep | location.c:151-167 | one field step consumes the number, a comma exactly when one follows it, and the blanks after; the next cursor is at or past the end of the number, and past the comma when one was consumed, at a non-blank byte or the end of the line, and past c when c is non-blank |
| Fields.EmptyFieldCounts | location.c:145-159 | a comma under the cursor is a field of its own, with an empty number, and it raises the limit |
| Fields.Scan | location.c:140-169 | the scan never moves backwards and records at most six fields |
| Fields.LineFields | location.c:139-141 | the scan of a trimmed line starts at its first byte with limit 3; its cursor stays in the line, it has at most six fields, and an empty line has none |
| Fields.ScanKeeps | location.c:141-169 | fields already read stay in place |
| Fields.ScanLimits | location.c:140-169 | the limit is 3 or 6 and only grows; no more fields than the final limit are read; a scan short of it stopped at the end of the line |
| Fields.ScanStarts | location.c:141-169 | every field starts inside the line at a non-blank byte, the first at the cursor, in strictly increasing order |
| Fields.CommaAmongStep | location.c:156-159 | a comma among fields from i on is a comma after field i or among fields from i+1 on |
| Fields.LimitRaised | location.c:140-159 | the limit ends at 6 exactly when a comma was consumed while reading one of the first three fields |
| Fields.FieldCount | location.c:140-171 | six fields only with a comma among the first three; at most three without one; fewer than six with one only when the line ran out; none on an empty line |
| Fields.NextField | location.c:151-167 | the cursor advance computes FieldStep |
| Fields.ScanFields | location.c:139-169 | the field loop reads exactly the fields of LineFields, at most six, and the value of each is atof at its start |
| Loader.ExtractName | location.c:171-179 | not quoted exactly when the remainder is empty or does not open with '"'; negative length exactly when it is the lone '"'; otherwise the name is the bytes after the quote, up to the last byte of the line, cut to 31 |
| Loader.NameRoundTrip | location.c:173-179 | a quoted name of at most 31 bytes reads back exactly, a longer one cut to 31 bytes |
| Loader.ParseFields | location.c:171-184 | an accepted line yields a well-formed region with a name of at most 31 bytes |
| Loader.ParseLine | location.c:130-184 | an accepted line yields a well-formed region with a name of at most 31 bytes |
| Loader.CommentSkipped | location.c:136-138 | a trimmed line opening with "//" adds nothing |
| Loader.BlankLineSkipped | location.c:130-144 | an empty or all-blank line has no fields and adds nothing |
| Loader.NoCommaSkipped | location.c:140-184 | a line with no comma after any of its first three fields adds nothing |
| Loader.UndefinedIffLoneQuote | location.c:171-178 | the negative-length copy happens exactly on a non-comment line with six fields whose remainder is the lone '"' |
| Loader.AcceptedRegion | location.c:146-181 | the fields and remainder are accepted exactly when there are six fields and the remainder opens with '"' and is two bytes or more; then the region is built from the six values in order and its name is the remainder's bytes after the quote, cut to 31 |
| Loader.AcceptedFields | location.c:141-171 | the fields of an accepted line are six, with a comma among the first three, each at a non-blank byte of the line, in increasing order |
| Loader.AcceptedLine | location.c:130-181 | an accepted line is not a comment, its fields are as AcceptedFields says, and it yields what its fields and name make |
| Loader.Outcomes | location.c:120-185 | one outcome per line |
| Loader.OutcomesAt | location.c:120-185 | the outcome at each position is that of the line at that position |
| Loader.Fold | location.c:120-185 | the load never yields more regions than there are lines |
| Loader.FoldStep | location.c:137-184 | taking one line: skipped adds nothing, accepted appends its region at the tail, undefined stops the load with what is stored |
| Loader.FoldAppend | location.c:120-185 | loading two runs of lines is loading the first, then, unless it stopped, the second after it |
| Loader.FaultIffUndefined | location.c:175-178 | the load stops early exactly when some line has the lone-quote remainder |
| Loader.AcceptedAppend | location.c:171-184 | the accepted regions of two runs of lines are those of the first followed by those of the second |
| Loader.FoldAccepted | location.c:120-186 | a load that does not stop yields exactly the accepted lines' regions, in file order |
| Loader.FoldStopsAtFirstUndefined | location.c:175-178 | a load that stops does so at the first lone-quote line, keeping the accepted regions before it |
| Loader.NextOutcome | location.c:120-129 | the outcomes from a cursor are those of the line up to its terminator, then those from just past it |
| Loader.FileText | location.c:116-119 | the text is the file data up to its first NUL, or all of it when there is none |
| Loader.LoadSpec | location.c:116-186 | the load over the file text yields at most one region per line |
| Loader.LoadSpecOutcomes | location.c:116-186 | a load's outcomes are those of the file's lines in order; it stops early exactly on a lone-quote line, and otherwise yields the accepted lines' regions in file order |
| Loader.CopyName | location.c:173-179 | the name copy computes ExtractName |
| Loader.ReadFields | location.c:139-184 | the field loop and name copy compute ParseFields; an accepted line hands back its six values and the name its region is built from |
| Loader.TrimLine | location.c:130-135 | the two trimming loops compute TrimmedSpan |
| Loader.ReadLine | location.c:130-184 | the loop body after the line split computes ParseLine, and hands back what SetLoc is given |
| Loader.NextLine | location.c:122-129 | the line split finds LineEnd and the next line's start, strictly past the cursor |
| Loader.StoreRegion | location.c:146-181 | the six values go to the corner arrays, SetLoc leaves each axis ordered in them, and appends the region built from the values |
| Loader.LoadLine | location.c:120-184 | one loop pass moves the cursor strictly forward, consumes one outcome, appends the region of an accepted line and nothing else, and reports the negative-length case |
| Loader.LoadText | location.c:116-186 | the line loop appends to the store exactly what Fold yields for the outcomes of the text, and reports whether it stopped early |
| Loader.LoadLocations | location.c:80-187 | with no map, the store is unchanged; otherwise it is cleared; a missing or data-less file then fails; otherwise the store holds exactly the regions LoadSpec yields, and the result reports a negative-length stop |

## Left out

- File access is not modelled: `COM_FileExists`, `COM_LoadTempFile` and building the `locs/<map>.loc` path (location.c:100-114). The file is the input `FileState`: missing, no data, or its bytes.
- Session state is not modelled. The check of `cls.state` and `cl.worldmodel` is the boolean `mapLoaded`, and `cl.mapname` is not used.
- Console output (`Con_Printf`, `Con_DPrintf`) is not modelled. It does not affect control flow.
- The allocator and pointers are not modelled. `Z_Malloc` and `Z_Free` are abstracted, and the list is a sequence, so appending at the tail is sequence concatenation.
- Store.LocationStore.Clear models the effect intended, an empty list. The original's `LOC_Clear_f` reads each node's link after `LOC_Delete` has freed the node, a use-after-free the model does not reproduce.
- `LOC_Delete` as a general removal of one node is not modelled. Its only caller removes every node.
- `LOC_Init` allocates a zeroed dummy head node (location.c:17-18). It only matters before the first clear, and the model starts from an empty store.
- `atof` is the parameter `atof: (seq<char>, nat) -> real`. It is applied to the whole text at the field's start, so nothing is assumed about how it parses or where it stops.
- Floating point is not modelled. Coordinates, sums and scores are reals, and float rounding is left out.
- Store.LocationStore.SetLoc: the name is stored as a plain copy. The original passes the name as the format string of `q_snprintf` (location.c:74), so a `%` in a name is read as a conversion.
- Store.LocationStore.SetLoc requires two distinct corner arrays. The loader always passes its two separate arrays.
- Text.IsBlank compares bytes as unsigned. On a platform where `char` is signed, bytes from 0x80 up also read as blank.
- Loader.LoadLocations reports the negative-length `memcpy` as the result `NegativeNameLength`, with the load stopped at that line. In the original, what happens next is undefined.
