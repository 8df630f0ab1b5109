/** The CSV reader of `src/lib/data.ts`: a line splitter driven by one
    in-quotes flag, and a row builder that coerces each cell by its header. */
module Csv {
  import opened Wrappers
  import opened Strings
  import opened Records
  import opened Sorting

  // ---------------------------------------------------------------------
  // Splitting one line

  /** The text with every `"` removed. */
  function Unquote(s: string): (r: string)
    ensures '"' !in r
  {
    if s == [] then [] else (if s[0] == '"' then [] else [s[0]]) + Unquote(s[1..])
  }

  lemma {:induction false} UnquoteAppend(a: string, b: string)
    ensures Unquote(a + b) == Unquote(a) + Unquote(b)
  {
    if a != [] {
      var p := if a[0] == '"' then [] else [a[0]];
      assert (a + b)[0] == a[0];
      assert (a + b)[1..] == a[1..] + b;
      UnquoteAppend(a[1..], b);
      calc {
        Unquote(a + b);
        p + Unquote(a[1..] + b);
        p + (Unquote(a[1..]) + Unquote(b));
        (p + Unquote(a[1..])) + Unquote(b);
        Unquote(a) + Unquote(b);
      }
    } else {
      assert a + b == b;
    }
  }

  /** Whether position `i` of `s` lies inside quotes, when scanning starts
      with the flag at `q`: every `"` before it flips the flag. */
  predicate QuotedAt(s: string, q: bool, i: nat)
    requires i <= |s|
  {
    q != (Count(s[..i], '"') % 2 == 1)
  }

  /** The raw fields of `s` (quotes dropped, not yet trimmed) when scanning
      starts with the in-quotes flag at `q`: a `"` flips the flag, a comma
      outside quotes ends a field, anything else extends the current one. */
  function Chunks(s: string, q: bool): (r: seq<string>)
    ensures |r| >= 1
  {
    if s == [] then [""]
    else
      var t := Chunks(s[1..], if s[0] == '"' then !q else q);
      if s[0] == '"' then t
      else if s[0] == ',' && !q then [""] + t
      else [[s[0]] + t[0]] + t[1..]
  }

  function Shift(e: seq<nat>): (r: seq<nat>)
    ensures |r| == |e| && forall k :: 0 <= k < |e| ==> r[k] == e[k] + 1
  {
    seq(|e|, k requires 0 <= k < |e| => e[k] + 1)
  }

  /** The positions of the commas of `s` that end a field, in order. */
  function Delimiters(s: string, q: bool): seq<nat>
  {
    if s == [] then []
    else
      var e := Shift(Delimiters(s[1..], if s[0] == '"' then !q else q));
      if s[0] == ',' && !q then [0] + e else e
  }

  /** Start and end of the `k`-th field's text, given the delimiter positions. */
  function Lo(d: seq<nat>, k: nat): nat
    requires k <= |d|
  {
    if k == 0 then 0 else d[k - 1] + 1
  }

  function Hi(d: seq<nat>, k: nat, n: nat): nat
    requires k <= |d|
  {
    if k < |d| then d[k] else n
  }

  predicate Increasing(d: seq<nat>)
  {
    forall k, l :: 0 <= k < l < |d| ==> d[k] < d[l]
  }

  /** Increasing positions, all below `n`. */
  predicate Positions(d: seq<nat>, n: nat)
  {
    Increasing(d) && forall k :: 0 <= k < |d| ==> d[k] < n
  }

  lemma {:induction false} CountPrefix(s: string, c: char, i: nat)
    requires 0 < i <= |s|
    ensures Count(s[..i], c) == (if s[0] == c then 1 else 0) + Count(s[1..][..i - 1], c)
  {
    assert s[..i][1..] == s[1..][..i - 1];
  }

  lemma {:induction false} DelimitersIncrease(s: string, q: bool)
    ensures Positions(Delimiters(s, q), |s|)
  {
    if s != [] {
      DelimitersIncrease(s[1..], if s[0] == '"' then !q else q);
    }
  }

  lemma {:induction false} DelimiterAt(s: string, q: bool, i: nat)
    requires i < |s|
    ensures i in Delimiters(s, q) <==> s[i] == ',' && !QuotedAt(s, q, i)
  {
    var q' := if s[0] == '"' then !q else q;
    var e := Delimiters(s[1..], q');
    assert Delimiters(s, q) == if s[0] == ',' && !q then [0] + Shift(e) else Shift(e);
    ShiftHas(e, i);
    if i == 0 {
      assert s[..0] == [];
    } else {
      DelimiterAt(s[1..], q', i - 1);
      QuotedStep(s, q, i);
      assert s[1..][i - 1] == s[i];
    }
  }

  lemma ShiftHas(e: seq<nat>, i: nat)
    ensures i in Shift(e) <==> i > 0 && i - 1 in e
  {
    if i in Shift(e) {
      var k :| 0 <= k < |e| && Shift(e)[k] == i;
    }
    if i > 0 && i - 1 in e {
      var k :| 0 <= k < |e| && e[k] == i - 1;
      assert Shift(e)[k] == i;
    }
  }

  /** Past the first character, the in-quotes state is the one the rest of
      the string sees, starting from the flag the first character leaves. */
  lemma QuotedStep(s: string, q: bool, i: nat)
    requires 0 < i <= |s|
    ensures QuotedAt(s, q, i) == QuotedAt(s[1..], if s[0] == '"' then !q else q, i - 1)
  {
    CountPrefix(s, '"', i);
  }

  /** The delimiters are exactly the commas at which an even number of
      quotes has been seen (counting the starting flag), in increasing order. */
  lemma DelimitersAreUnquotedCommas(s: string, q: bool)
    ensures Positions(Delimiters(s, q), |s|)
    ensures forall i :: 0 <= i < |s| ==>
              (i in Delimiters(s, q) <==> s[i] == ',' && !QuotedAt(s, q, i))
  {
    DelimitersIncrease(s, q);
    forall i | 0 <= i < |s| ensures i in Delimiters(s, q) <==> s[i] == ',' && !QuotedAt(s, q, i) {
      DelimiterAt(s, q, i);
    }
  }

  lemma {:induction false} ChunksCount(s: string, q: bool)
    ensures |Chunks(s, q)| == |Delimiters(s, q)| + 1
  {
    if s != [] {
      ChunksCount(s[1..], if s[0] == '"' then !q else q);
    }
  }

  lemma SliceShift(s: string, a: nat, b: nat)
    requires a <= b < |s|
    ensures s[a + 1..b + 1] == s[1..][a..b]
  {
    assert forall j :: 0 <= j < b - a ==> s[a + 1..b + 1][j] == s[a + 1 + j] == s[1..][a..b][j];
  }

  /** Field `k` of `Chunks(s, q)`, as a segment of `s`. */
  predicate SegmentAt(s: string, q: bool, k: nat)
    requires k <= |Delimiters(s, q)|
  {
    var d := Delimiters(s, q);
    && Lo(d, k) <= Hi(d, k, |s|) <= |s|
    && |Chunks(s, q)| == |d| + 1
    && Chunks(s, q)[k] == Unquote(s[Lo(d, k)..Hi(d, k, |s|)])
  }

  /** The step of `ChunkIsSegment` across a comma that ends a field. */
  lemma SegmentAfterDelimiter(s: string, q: bool, k: nat)
    requires s != [] && s[0] == ',' && !q
    requires 0 < k <= |Delimiters(s, q)|
    requires k - 1 <= |Delimiters(s[1..], q)| && SegmentAt(s[1..], q, k - 1)
    ensures SegmentAt(s, q, k)
  {
    var e := Delimiters(s[1..], q);
    var t := Chunks(s[1..], q);
    assert Delimiters(s, q) == [0] + Shift(e);
    assert Chunks(s, q) == [""] + t;
    SegmentShiftPast(s, Chunks(s, q), t, Delimiters(s, q), e, k);
  }

  /** Moving a field one position right past a new first field: the
      `k - 1`-th field of `s[1..]` becomes the `k`-th field of `s` when
      position 0 is a delimiter and every other delimiter moves by one. */
  lemma SegmentShiftPast(s: string, cs: seq<string>, t: seq<string>, d: seq<nat>, e: seq<nat>, k: nat)
    requires s != [] && d == [0] + Shift(e) && 0 < k <= |d|
    requires |t| == |e| + 1 && cs == [""] + t
    requires Lo(e, k - 1) <= Hi(e, k - 1, |s| - 1) <= |s| - 1
    requires t[k - 1] == Unquote(s[1..][Lo(e, k - 1)..Hi(e, k - 1, |s| - 1)])
    ensures Lo(d, k) <= Hi(d, k, |s|) <= |s| && |cs| == |d| + 1
    ensures cs[k] == Unquote(s[Lo(d, k)..Hi(d, k, |s|)])
  {
    var lo, h := Lo(e, k - 1), Hi(e, k - 1, |s| - 1);
    assert Lo(d, k) == lo + 1 && Hi(d, k, |s|) == h + 1;
    SliceShift(s, lo, h);
  }

  /** The step of `ChunkIsSegment` across a quote or an ordinary character,
      for a field after the first. */
  lemma SegmentAfterOther(s: string, q: bool, q': bool, k: nat)
    requires s != [] && !(s[0] == ',' && !q)
    requires q' == if s[0] == '"' then !q else q
    requires 0 < k <= |Delimiters(s, q)|
    requires k <= |Delimiters(s[1..], q')| && SegmentAt(s[1..], q', k)
    ensures SegmentAt(s, q, k)
  {
    var e := Delimiters(s[1..], q');
    var t := Chunks(s[1..], q');
    DelimitersAfterOther(s, q, q');
    LaterChunkUnchanged(s, q, q', k);
    SegmentShift(s, Chunks(s, q), t, Delimiters(s, q), e, k);
  }

  /** Moving a field one position right: the `k`-th field of `s[1..]`, as a
      segment, becomes the `k`-th field of `s` once every delimiter moves by
      one. */
  lemma SegmentShift(s: string, cs: seq<string>, t: seq<string>, d: seq<nat>, e: seq<nat>, k: nat)
    requires s != [] && d == Shift(e) && 0 < k <= |e|
    requires |t| == |e| + 1 && |cs| == |t| && cs[k] == t[k]
    requires Lo(e, k) <= Hi(e, k, |s| - 1) <= |s| - 1
    requires t[k] == Unquote(s[1..][Lo(e, k)..Hi(e, k, |s| - 1)])
    ensures Lo(d, k) <= Hi(d, k, |s|) <= |s| && |cs| == |d| + 1
    ensures cs[k] == Unquote(s[Lo(d, k)..Hi(d, k, |s|)])
  {
    var lo, h := Lo(e, k), Hi(e, k, |s| - 1);
    assert Hi(d, k, |s|) == h + 1 && Lo(d, k) == lo + 1;
    SliceShift(s, lo, h);
  }

  lemma DelimitersAfterOther(s: string, q: bool, q': bool)
    requires s != [] && !(s[0] == ',' && !q)
    requires q' == if s[0] == '"' then !q else q
    ensures Delimiters(s, q) == Shift(Delimiters(s[1..], q'))
  {
  }

  lemma LaterChunkUnchanged(s: string, q: bool, q': bool, k: nat)
    requires s != [] && !(s[0] == ',' && !q)
    requires q' == if s[0] == '"' then !q else q
    requires 0 < k < |Chunks(s[1..], q')|
    ensures |Chunks(s, q)| == |Chunks(s[1..], q')| && Chunks(s, q)[k] == Chunks(s[1..], q')[k]
  {
  }

  /** The step of `ChunkIsSegment` across a quote or an ordinary character,
      for the first field: a quote is dropped, a character joins its front. */
  lemma SegmentAfterOtherFirst(s: string, q: bool, q': bool)
    requires s != [] && !(s[0] == ',' && !q)
    requires q' == if s[0] == '"' then !q else q
    requires SegmentAt(s[1..], q', 0)
    ensures SegmentAt(s, q, 0)
  {
    var t := Chunks(s[1..], q');
    var e := Delimiters(s[1..], q');
    var d := Delimiters(s, q);
    assert d == Shift(e);
    var h := Hi(e, 0, |s| - 1);
    assert Hi(d, 0, |s|) == h + 1;
    assert Chunks(s, q)[0] == if s[0] != '"' then [s[0]] + t[0] else t[0];
    assert s[0..h + 1] == [s[0]] + s[1..][0..h];
    UnquoteAppend([s[0]], s[1..][0..h]);
  }

  /** Field `k` of `Chunks(s, q)` is the text between delimiter `k - 1` and
      delimiter `k`, with its quotes removed; so a comma inside quotes stays
      in its field. */
  lemma {:induction false} ChunkIsSegment(s: string, q: bool, k: nat)
    requires k <= |Delimiters(s, q)|
    ensures SegmentAt(s, q, k)
  {
    ChunksCount(s, q);
    if s == [] {
    } else if s[0] == ',' && !q {
      if k > 0 {
        ChunkIsSegment(s[1..], q, k - 1);
        SegmentAfterDelimiter(s, q, k);
      } else {
        assert s[0..0] == [];
      }
    } else {
      var q' := if s[0] == '"' then !q else q;
      ChunkIsSegment(s[1..], q', k);
      if k > 0 {
        SegmentAfterOther(s, q, q', k);
      } else {
        SegmentAfterOtherFirst(s, q, q');
      }
    }
  }

  /** One step of the scan: how the raw fields of `c` followed by `s` come
      from those of `s`. */
  lemma ChunksCons(c: char, s: string, q: bool)
    ensures Chunks([c] + s, q) ==
      if c == '"' then Chunks(s, !q)
      else if c == ',' && !q then [""] + Chunks(s, q)
      else [[c] + Chunks(s, q)[0]] + Chunks(s, q)[1..]
  {
    assert ([c] + s)[1..] == s;
  }

  /** Every string of `xs`, trimmed. */
  function TrimAll(xs: seq<string>): seq<string>
  {
    seq(|xs|, i requires 0 <= i < |xs| => Trim(xs[i]))
  }

  lemma TrimAllSnoc(xs: seq<string>, x: string)
    ensures TrimAll(xs + [x]) == TrimAll(xs) + [Trim(x)]
  {
    assert forall i :: 0 <= i < |xs| ==> (xs + [x])[i] == xs[i];
  }

  /** The fields of a line, each trimmed. */
  function Fields(line: string): seq<string>
  {
    TrimAll(Chunks(line, false))
  }

  /** Field `k` of a line: the trimmed, unquoted text between the
      delimiters around it; it holds no quote and is already trimmed. */
  lemma FieldIsSegment(line: string, k: nat)
    requires k <= |Delimiters(line, false)|
    ensures var d := Delimiters(line, false);
      && |Fields(line)| == |d| + 1
      && Lo(d, k) <= Hi(d, k, |line|) <= |line|
      && Fields(line)[k] == Trim(Unquote(line[Lo(d, k)..Hi(d, k, |line|)]))
      && '"' !in Fields(line)[k] && Trim(Fields(line)[k]) == Fields(line)[k]
  {
    var c := Chunks(line, false);
    ChunkIsSegment(line, false, k);
    TrimKeepsOnly(c[k], '"');
    TrimIdempotent(c[k]);
  }

  /** What `parseCSVLine` promises: there is one field more than there are
      commas outside quotes (a comma is outside quotes when an even number
      of `"` precede it); field `k` is the text between the `k`-th such
      comma and the next, with its quotes dropped and then trimmed; so a
      comma inside quotes is part of its field, no field holds a `"`, and
      every field is already trimmed. */
  lemma FieldsSpec(line: string)
    ensures var d := Delimiters(line, false);
      && Increasing(d)
      && (forall i :: 0 <= i < |line| ==>
            (i in d <==> line[i] == ',' && Count(line[..i], '"') % 2 == 0))
      && |Fields(line)| == |d| + 1
      && forall k :: 0 <= k <= |d| ==>
           Lo(d, k) <= Hi(d, k, |line|) <= |line| &&
           Fields(line)[k] == Trim(Unquote(line[Lo(d, k)..Hi(d, k, |line|)]))
    ensures forall k :: 0 <= k < |Fields(line)| ==>
              '"' !in Fields(line)[k] && Trim(Fields(line)[k]) == Fields(line)[k]
  {
    DelimitersAreUnquotedCommas(line, false);
    ChunksCount(line, false);
    var d := Delimiters(line, false);
    forall k | 0 <= k <= |d|
      ensures Lo(d, k) <= Hi(d, k, |line|) <= |line| &&
              Fields(line)[k] == Trim(Unquote(line[Lo(d, k)..Hi(d, k, |line|)]))
      ensures '"' !in Fields(line)[k] && Trim(Fields(line)[k]) == Fields(line)[k]
    {
      FieldIsSegment(line, k);
    }
  }

  /** The scan of `line` has reached position `i` with the flag at `q`:
      `raw` holds the fields already ended and `current` the start of the
      field being read, and finishing the scan gives `Chunks(line, false)`. */
  ghost predicate Scanned(line: string, i: nat, q: bool, raw: seq<string>, current: string)
    requires i <= |line|
  {
    var rest := Chunks(line[i..], q);
    Chunks(line, false) == raw + [current + rest[0]] + rest[1..]
  }

  /** A quote flips the flag and adds nothing to the field. */
  lemma ScanQuote(line: string, i: nat, q: bool, raw: seq<string>, current: string)
    requires i < |line| && line[i] == '"' && Scanned(line, i, q, raw, current)
    ensures Scanned(line, i + 1, !q, raw, current)
  {
    assert line[i..] == [line[i]] + line[i + 1..];
    ChunksCons(line[i], line[i + 1..], q);
  }

  /** A comma outside quotes ends the current field. */
  lemma ScanDelimiter(line: string, i: nat, q: bool, raw: seq<string>, current: string)
    requires i < |line| && line[i] == ',' && !q && Scanned(line, i, q, raw, current)
    ensures Scanned(line, i + 1, q, raw + [current], "")
  {
    assert line[i..] == [line[i]] + line[i + 1..];
    ChunksCons(line[i], line[i + 1..], q);
    var rest := Chunks(line[i + 1..], q);
    assert current + "" == current;
    assert "" + rest[0] == rest[0];
    assert rest == [rest[0]] + rest[1..];
  }

  /** Any other character joins the current field. */
  lemma ScanOther(line: string, i: nat, q: bool, raw: seq<string>, current: string)
    requires i < |line| && line[i] != '"' && !(line[i] == ',' && !q)
    requires Scanned(line, i, q, raw, current)
    ensures Scanned(line, i + 1, q, raw, current + [line[i]])
  {
    var ch := line[i];
    assert line[i..] == [ch] + line[i + 1..];
    ChunksCons(ch, line[i + 1..], q);
    var rest := Chunks(line[i + 1..], q);
    assert current + ([ch] + rest[0]) == (current + [ch]) + rest[0];
  }

  /** `parseCSVLine`: one pass over the characters with an in-quotes flag;
      a `"` flips the flag and is dropped, a comma outside quotes pushes the
      trimmed current field, anything else is appended to it. */
  method ParseCSVLine(line: string) returns (values: seq<string>)
    ensures values == Fields(line)
  {
    values := [];
    var current := "";
    var inQuotes := false;
    ghost var raw: seq<string> := [];
    ghost var c := Chunks(line, false);
    assert line[0..] == line;
    assert current + c[0] == c[0];
    assert c == [c[0]] + c[1..];
    for i := 0 to |line|
      invariant values == TrimAll(raw)
      invariant Scanned(line, i, inQuotes, raw, current)
    {
      var ch := line[i];
      if ch == '"' {
        ScanQuote(line, i, inQuotes, raw, current);
        inQuotes := !inQuotes;
      } else if ch == ',' && !inQuotes {
        ScanDelimiter(line, i, inQuotes, raw, current);
        TrimAllSnoc(raw, current);
        values := values + [Trim(current)];
        raw := raw + [current];
        current := "";
      } else {
        ScanOther(line, i, inQuotes, raw, current);
        current := current + [ch];
      }
    }
    assert line[|line|..] == [];
    assert Chunks(line[|line|..], inQuotes) == [""];
    assert current + "" == current;
    assert c == raw + [current];
    TrimAllSnoc(raw, current);
    values := values + [Trim(current)];
    raw := raw + [current];
  }

  // ---------------------------------------------------------------------
  // Coercing one row

  /** `values[i] || ''`: a short line reads as empty strings past its end. */
  function FieldAt(values: seq<string>, i: nat): string
  {
    if i < |values| then values[i] else ""
  }

  /** How one cell is coerced, chosen by its header: `taxable_value` and
      `year` by `parseInt(value, 10) || 0`; a header containing `_change` or
      `_pct` to null for `NA` or the empty string and otherwise by
      `parseFloat`; anything else stays the string it is. */
  function Coerce(header: string, value: string,
                  parseInt: string -> Option<int>, parseFloat: string -> Option<real>): Value
  {
    if header == "taxable_value" || header == "year" then
      Integer(parseInt(value).GetOr(0))
    else if Contains(header, "_change") || Contains(header, "_pct") then
      if value == "NA" || value == "" then Null
      else match parseFloat(value)
        case Some(x) => Number(Finite(x))
        case None => Number(NaN)
    else Text(value)
  }

  /** The row a line's fields make: each header in turn writes the cell
      coerced from its column, so a header that occurs more than once ends
      with the cell of its last column. */
  function RecordOf(headers: seq<string>, values: seq<string>,
                    parseInt: string -> Option<int>, parseFloat: string -> Option<real>): Row
  {
    if headers == [] then map[]
    else
      var n := |headers| - 1;
      RecordOf(headers[..n], values, parseInt, parseFloat)[headers[n] := Coerce(headers[n], FieldAt(values, n), parseInt, parseFloat)]
  }

  /** The `headers.forEach` loop of `parseCSV`: each header in turn writes
      its coerced cell into the record. */
  method BuildRecord(headers: seq<string>, values: seq<string>,
                     parseInt: string -> Option<int>, parseFloat: string -> Option<real>)
    returns (record: Row)
    ensures record == RecordOf(headers, values, parseInt, parseFloat)
  {
    record := map[];
    for i := 0 to |headers|
      invariant record == RecordOf(headers[..i], values, parseInt, parseFloat)
    {
      var value := if i < |values| then values[i] else "";
      assert headers[..i + 1][..i] == headers[..i];
      record := record[headers[i] := Coerce(headers[i], value, parseInt, parseFloat)];
    }
    assert headers[..|headers|] == headers;
  }

  /** The row has exactly the header names as keys; the cell of a header is
      coerced from the field in that header's last column, or from the empty
      string when the line is too short to reach that column. */
  lemma RecordOfSpec(headers: seq<string>, values: seq<string>,
                     parseInt: string -> Option<int>, parseFloat: string -> Option<real>)
    ensures forall h :: h in RecordOf(headers, values, parseInt, parseFloat) <==> h in headers
    ensures forall i :: 0 <= i < |headers| && headers[i] !in headers[i + 1..] ==>
      RecordOf(headers, values, parseInt, parseFloat)[headers[i]] ==
        Coerce(headers[i], if i < |values| then values[i] else "", parseInt, parseFloat)
  {
    forall h ensures h in RecordOf(headers, values, parseInt, parseFloat) <==> h in headers {
      RecordOfKeys(headers, values, parseInt, parseFloat, h);
    }
    forall i | 0 <= i < |headers| && headers[i] !in headers[i + 1..]
      ensures RecordOf(headers, values, parseInt, parseFloat)[headers[i]] ==
              Coerce(headers[i], if i < |values| then values[i] else "", parseInt, parseFloat)
    {
      RecordOfCell(headers, values, parseInt, parseFloat, i);
    }
  }

  lemma {:induction false} RecordOfKeys(headers: seq<string>, values: seq<string>,
                                        parseInt: string -> Option<int>, parseFloat: string -> Option<real>, h: string)
    ensures h in RecordOf(headers, values, parseInt, parseFloat) <==> h in headers
  {
    if headers != [] {
      var n := |headers| - 1;
      RecordOfKeys(headers[..n], values, parseInt, parseFloat, h);
      assert headers == headers[..n] + [headers[n]];
    }
  }

  lemma {:induction false} RecordOfCell(headers: seq<string>, values: seq<string>,
                                        parseInt: string -> Option<int>, parseFloat: string -> Option<real>, i: nat)
    requires i < |headers| && headers[i] !in headers[i + 1..]
    ensures headers[i] in RecordOf(headers, values, parseInt, parseFloat)
    ensures RecordOf(headers, values, parseInt, parseFloat)[headers[i]] ==
            Coerce(headers[i], FieldAt(values, i), parseInt, parseFloat)
  {
    var n := |headers| - 1;
    if i < n {
      var init := headers[..n];
      assert headers[n] in headers[i + 1..];
      assert init[i + 1..] == headers[i + 1..n];
      RecordOfCell(init, values, parseInt, parseFloat, i);
    }
  }

  /** The three coercion rules, stated on cells: the integer columns are
      always integers and fall back to 0; a `_change`/`_pct` column maps `NA`
      and the empty string to null and any other text to what `parseFloat`
      makes of it (NaN when it fails); every other column keeps its text. */
  lemma CoercionRules(header: string, value: string,
                      parseInt: string -> Option<int>, parseFloat: string -> Option<real>)
    ensures var c := Coerce(header, value, parseInt, parseFloat);
      && (header == "taxable_value" || header == "year" ==>
            c.Integer? && (parseInt(value).None? ==> c.n == 0)
            && (parseInt(value).Some? ==> c.n == parseInt(value).value))
      && (header != "taxable_value" && header != "year" &&
          (Contains(header, "_change") || Contains(header, "_pct")) ==>
            (c.Null? <==> value == "NA" || value == "") && (c.Null? || c.Number?))
      && (header != "taxable_value" && header != "year" &&
          (Contains(header, "_change") || Contains(header, "_pct")) &&
          value != "NA" && value != "" ==>
            c == Number(if parseFloat(value).Some? then Finite(parseFloat(value).value) else NaN))
      && (header != "taxable_value" && header != "year" &&
          !Contains(header, "_change") && !Contains(header, "_pct") ==>
            c == Text(value))
  {
  }

  // ---------------------------------------------------------------------
  // Parsing a whole file

  /** `parseCSV`: trim the text, split it on line feeds, split the first line
      naively on commas for the headers, and make one row of every later
      line. */
  method ParseCSV(text: string, parseInt: string -> Option<int>, parseFloat: string -> Option<real>)
    returns (rows: seq<Row>)
    ensures var lines := Split(Trim(text), '\n');
      && |rows| == |lines| - 1 == Count(Trim(text), '\n')
      && Mapped(rows, lines[1..], RowOf(Split(lines[0], ','), parseInt, parseFloat))
  {
    var lines := Split(Trim(text), '\n');
    SplitCount(Trim(text), '\n');
    var headers := Split(lines[0], ',');
    rows := ParseRows(headers, lines[1..], parseInt, parseFloat);
  }

  /** The row one data line makes: its fields, coerced under the headers. */
  function RowOf(headers: seq<string>,
                 parseInt: string -> Option<int>, parseFloat: string -> Option<real>): string -> Row
  {
    line => RecordOf(headers, Fields(line), parseInt, parseFloat)
  }

  /** `lines.slice(1).map(...)`: one row per line, in order. */
  method ParseRows(headers: seq<string>, lines: seq<string>,
                   parseInt: string -> Option<int>, parseFloat: string -> Option<real>)
    returns (rows: seq<Row>)
    ensures Mapped(rows, lines, RowOf(headers, parseInt, parseFloat))
  {
    var rowOf := RowOf(headers, parseInt, parseFloat);
    rows := [];
    for k := 0 to |lines|
      invariant Mapped(rows, lines[..k], rowOf)
    {
      var values := ParseCSVLine(lines[k]);
      var record := BuildRecord(headers, values, parseInt, parseFloat);
      assert record == rowOf(lines[k]);
      MappedSnoc(rows, lines[..k], rowOf, lines[k]);
      assert lines[..k] + [lines[k]] == lines[..k + 1];
      rows := rows + [record];
    }
    assert lines[..|lines|] == lines;
  }

  /** The ensures of `ParseCSV` read at one index: row `k` is built from
      the naively split header line and the fields of line `k + 1` of the
      trimmed text. */
  lemma ParseCSVRows(text: string, rows: seq<Row>,
                     parseInt: string -> Option<int>, parseFloat: string -> Option<real>, k: nat)
    requires var lines := Split(Trim(text), '\n');
      Mapped(rows, lines[1..], RowOf(Split(lines[0], ','), parseInt, parseFloat))
    requires k < |rows|
    ensures var lines := Split(Trim(text), '\n');
      k + 1 < |lines| && rows[k] == RecordOf(Split(lines[0], ','), Fields(lines[k + 1]), parseInt, parseFloat)
  {
    var lines := Split(Trim(text), '\n');
    assert lines[1..][k] == lines[k + 1];
  }
}
