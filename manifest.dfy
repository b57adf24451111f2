/**
 * The checksum manifest: a text file with one `path<TAB>hex` record per line.
 * `validate_infile` reads a prior manifest into a path-to-digest dict; the end
 * of `main` writes the new manifest. A reader of a written manifest gets back
 * the records that were written.
 */
module Manifest {
  import opened Outcomes
  import opened PyStr
  import opened PyDict

  /** One record: a path and its hex digest. */
  type Entry = (string, string)

  /** A line is a record when, once trailing whitespace is stripped, it holds
      exactly one tab. */
  predicate TwoColumns(line: string) {
    multiset(RStrip(line))['\t'] == 1
  }

  /** `file, hex = line.rstrip().split('\t')`: the two columns of a line, or
      None where the unpacking raises because the split did not give exactly
      two fields. */
  function ParseLine(line: string): (r: Option<Entry>)
    ensures r.Some? <==> TwoColumns(line)
    ensures r.Some? ==> RStrip(line) == r.value.0 + "\t" + r.value.1
    ensures r.Some? ==> '\t' !in r.value.0 && '\t' !in r.value.1
  {
    var fields := Split(RStrip(line), '\t');
    SplitCount(RStrip(line), '\t');
    SplitJoin(RStrip(line), '\t');
    if |fields| == 2 then
      assert Join(fields[1..], '\t') == fields[1];
      Some((fields[0], fields[1]))
    else
      None
  }

  /** The records of the lines, or None when one line is not a record. */
  function ParseEntries(lines: seq<string>): (r: Option<seq<Entry>>)
    ensures r.Some? <==> forall i :: 0 <= i < |lines| ==> ParseLine(lines[i]).Some?
    ensures r.Some? ==> |r.value| == |lines|
    ensures r.Some? ==> forall i :: 0 <= i < |lines| ==> ParseLine(lines[i]) == Some(r.value[i])
  {
    if forall i :: 0 <= i < |lines| ==> ParseLine(lines[i]).Some? then
      Some(seq(|lines|, i requires 0 <= i < |lines| && ParseLine(lines[i]).Some? =>
        ParseLine(lines[i]).value))
    else
      None
  }

  /** The dict that `exists_hexes[file] = hex` builds record by record: a later
      record for a path replaces an earlier one. */
  function MapOf(es: seq<Entry>): (m: map<string, string>)
    ensures forall p :: p in m <==> exists i :: 0 <= i < |es| && es[i].0 == p
    decreases |es|
  {
    if es == [] then map[]
    else
      var init := es[..|es| - 1];
      var m := MapOf(init);
      assert forall i :: 0 <= i < |es| - 1 ==> es[i] == init[i];
      m[es[|es| - 1].0 := es[|es| - 1].1]
  }

  /** When a path has several records, its digest is the one from the last. */
  lemma {:induction false} LastRecordWins(es: seq<Entry>, i: nat)
    requires i < |es|
    requires forall j :: i < j < |es| ==> es[j].0 != es[i].0
    ensures es[i].0 in MapOf(es) && MapOf(es)[es[i].0] == es[i].1
    decreases |es|
  {
    if i < |es| - 1 {
      var init := es[..|es| - 1];
      assert forall j :: i < j < |init| ==> init[j] == es[j];
      LastRecordWins(init, i);
    }
  }

  /** The prior-manifest dict parsed from the lines of a file. */
  function Load(lines: seq<string>): (r: Option<map<string, string>>)
    ensures r.Some? <==> forall i :: 0 <= i < |lines| ==> TwoColumns(lines[i])
  {
    assert (forall i :: 0 <= i < |lines| ==> TwoColumns(lines[i])) <==>
           (forall i :: 0 <= i < |lines| ==> ParseLine(lines[i]).Some?);
    match ParseEntries(lines)
    case None => None
    case Some(es) => Some(MapOf(es))
  }

  /** What `validate_infile` returns for the text of the `-i` file (None when
      the option is absent): the empty dict, the dict of records, or the
      BadParameter error when a line of the text is not a record. */
  function LoadInfile(infile: Option<string>): (r: Result<map<string, string>>)
    ensures infile.None? ==> r == Success(map[])
    ensures r.Failure? ==> r.error == BadParameter
  {
    match infile
    case None => Success(map[])
    case Some(text) =>
      match Load(Lines(UniversalNewlines(text)))
      case None => Failure(BadParameter)
      case Some(m) => Success(m)
  }

  /** A prior manifest is accepted exactly when every one of its lines, read
      in text mode, is a record; one bad line rejects the whole file. */
  lemma LoadInfileAccepts(text: string, lines: seq<string>)
    requires lines == Lines(UniversalNewlines(text))
    ensures LoadInfile(Some(text)).Success? <==>
      forall i :: 0 <= i < |lines| ==> TwoColumns(lines[i])
  {
    assert LoadInfile(Some(text)).Success? <==> Load(lines).Some?;
  }

  /** `validate_infile`: reads the lines one by one into `exists_hexes` and
      gives up at the first line that is not a record. */
  method ValidateInfile(infile: Option<string>) returns (r: Result<map<string, string>>)
    ensures r == LoadInfile(infile)
  {
    if infile.None? {
      return Success(map[]);
    }
    var lines := Lines(UniversalNewlines(infile.value));
    var existsHexes: map<string, string> := map[];
    var i := 0;
    assert lines[..0] == [];
    while i < |lines|
      invariant 0 <= i <= |lines|
      invariant ParseEntries(lines[..i]).Some?
      invariant existsHexes == MapOf(ParseEntries(lines[..i]).value)
    {
      var parsed := ParseLine(lines[i]);
      if parsed.None? {
        RejectAt(infile.value, lines, i);
        return Failure(BadParameter);
      }
      var (file, hex) := parsed.value;
      ParseEntriesSnoc(lines, i, (file, hex));
      existsHexes := existsHexes[file := hex];
      i := i + 1;
    }
    assert lines[..i] == lines;
    AcceptAll(infile.value, lines, ParseEntries(lines).value);
    r := Success(existsHexes);
  }

  /** One more record line extends the records read so far by its record. */
  lemma ParseEntriesSnoc(lines: seq<string>, i: nat, e: Entry)
    requires i < |lines| && ParseEntries(lines[..i]).Some?
    requires ParseLine(lines[i]) == Some(e)
    ensures ParseEntries(lines[..i + 1]) == Some(ParseEntries(lines[..i]).value + [e])
    ensures MapOf(ParseEntries(lines[..i + 1]).value) ==
      MapOf(ParseEntries(lines[..i]).value)[e.0 := e.1]
  {
    assert lines[..i + 1] == lines[..i] + [lines[i]];
    ParseEntriesAppend(lines[..i], lines[i], e);
    MapOfSnoc(ParseEntries(lines[..i]).value, e);
  }

  lemma ParseEntriesAppend(ls: seq<string>, line: string, e: Entry)
    requires ParseEntries(ls).Some? && ParseLine(line) == Some(e)
    ensures ParseEntries(ls + [line]) == Some(ParseEntries(ls).value + [e])
  {
    var b := ls + [line];
    var es := ParseEntries(ls).value;
    assert ParseEntries(b).Some? by {
      forall k | 0 <= k < |b| ensures ParseLine(b[k]).Some? {
        if k < |ls| {
          assert b[k] == ls[k];
        }
      }
    }
    var fs := ParseEntries(b).value;
    forall k | 0 <= k < |b| ensures fs[k] == (es + [e])[k] {
      if k < |ls| {
        assert b[k] == ls[k];
      }
    }
    assert fs == es + [e];
  }

  /** A record added at the end sets its path's digest. */
  lemma MapOfSnoc(es: seq<Entry>, e: Entry)
    ensures MapOf(es + [e]) == MapOf(es)[e.0 := e.1]
  {
    assert (es + [e])[..|es|] == es;
  }

  /** One line that is not a record rejects the file. */
  lemma RejectAt(text: string, lines: seq<string>, i: nat)
    requires lines == Lines(UniversalNewlines(text))
    requires i < |lines| && ParseLine(lines[i]).None?
    ensures LoadInfile(Some(text)) == Failure(BadParameter)
  {
    assert ParseEntries(lines).None?;
  }

  /** A file whose lines are all records gives the dict of those records. */
  lemma AcceptAll(text: string, lines: seq<string>, es: seq<Entry>)
    requires lines == Lines(UniversalNewlines(text))
    requires ParseEntries(lines) == Some(es)
    ensures LoadInfile(Some(text)) == Success(MapOf(es))
  {
  }

  /** A path can be written as a first column and read back: no tab, no line
      break. */
  predicate CleanPath(p: string) {
    '\t' !in p && '\n' !in p && '\r' !in p
  }

  /** A digest can be written as a second column and read back: a clean,
      non-empty string that does not end in whitespace. */
  predicate CleanHex(h: string) {
    CleanPath(h) && h != [] && !IsSpace(h[|h| - 1])
  }

  predicate Writable(es: seq<Entry>) {
    forall i :: 0 <= i < |es| ==> CleanPath(es[i].0) && CleanHex(es[i].1)
  }

  /** `'%s\t%s\n' % (file, hex)` */
  function RenderLine(e: Entry): string {
    e.0 + "\t" + e.1 + "\n"
  }

  /** The text of a manifest with the given records, in order. */
  function Render(es: seq<Entry>): string
    decreases |es|
  {
    if es == [] then [] else RenderLine(es[0]) + Render(es[1..])
  }

  lemma {:induction false} RenderSnoc(es: seq<Entry>, e: Entry)
    ensures Render(es + [e]) == Render(es) + RenderLine(e)
    decreases |es|
  {
    if es != [] {
      assert (es + [e])[1..] == es[1..] + [e];
      RenderSnoc(es[1..], e);
    }
  }

  /** The end of `main`: the records of `hexes` in their order, then those of
      `new_hexes` in theirs. */
  method WriteManifest(hexes: Dict, newHexes: Dict) returns (text: string)
    requires hexes.Valid() && newHexes.Valid()
    ensures text == Render(hexes.Items() + newHexes.Items())
  {
    text := [];
    var reused := hexes.Items();
    for i := 0 to |reused|
      invariant text == Render(reused[..i])
    {
      RenderSnoc(reused[..i], reused[i]);
      assert reused[..i + 1] == reused[..i] + [reused[i]];
      text := text + RenderLine(reused[i]);
    }
    var computed := newHexes.Items();
    assert reused + computed[..0] == reused[..|reused|];
    for i := 0 to |computed|
      invariant text == Render(reused + computed[..i])
    {
      RenderSnoc(reused + computed[..i], computed[i]);
      assert reused + computed[..i + 1] == reused + computed[..i] + [computed[i]];
      text := text + RenderLine(computed[i]);
    }
    assert computed[..|computed|] == computed;
  }

  /** A written record line is read back as the same record. */
  lemma ParseRenderLine(e: Entry)
    requires CleanPath(e.0) && CleanHex(e.1)
    ensures ParseLine(RenderLine(e)) == Some(e)
  {
    var body := e.0 + "\t" + e.1;
    var line := RenderLine(e);
    assert line == body + "\n";
    assert line[|body|..] == "\n";
    assert line[|body| - 1] == e.1[|e.1| - 1];
    RStripAt(line, |body|);
    assert line[..|body|] == body;
    SplitPair(e.0, e.1, '\t');
  }

  /** The lines of a manifest with the given records, one per record. */
  function RenderLines(es: seq<Entry>): (ls: seq<string>)
    ensures |ls| == |es|
    ensures forall i :: 0 <= i < |es| ==> ls[i] == RenderLine(es[i])
  {
    seq(|es|, i requires 0 <= i < |es| => RenderLine(es[i]))
  }

  /** A written manifest is read as one line per record, the record's own line. */
  lemma {:induction false} LinesOfRender(es: seq<Entry>)
    requires Writable(es)
    ensures Lines(Render(es)) == RenderLines(es)
    decreases |es|
  {
    if es != [] {
      LinesOfFirstRecord(es);
      LinesOfRender(es[1..]);
      assert RenderLines(es) == [RenderLine(es[0])] + RenderLines(es[1..]);
    }
  }

  /** The first line of a written manifest is its first record's line. */
  lemma LinesOfFirstRecord(es: seq<Entry>)
    requires es != [] && Writable(es)
    ensures Writable(es[1..])
    ensures Lines(Render(es)) == [RenderLine(es[0])] + Lines(Render(es[1..]))
  {
    var e := es[0];
    assert Writable(es[1..]) by {
      forall i | 0 <= i < |es| - 1 ensures es[1..][i] == es[i + 1] { }
    }
    var line := e.0 + "\t" + e.1;
    assert '\n' !in line by {
      assert CleanPath(e.0) && CleanHex(e.1);
    }
    LinesCons(line, Render(es[1..]));
  }

  lemma {:induction false} RenderAvoidsCR(es: seq<Entry>)
    requires Writable(es)
    ensures '\r' !in Render(es)
    decreases |es|
  {
    if es != [] {
      RenderAvoidsCR(es[1..]);
    }
  }

  /** Round trip: reading back a written manifest gives the records that were
      written, so the dict read back is the one `MapOf` builds from them. */
  lemma RoundTrip(es: seq<Entry>)
    requires Writable(es)
    ensures ParseEntries(Lines(UniversalNewlines(Render(es)))) == Some(es)
    ensures LoadInfile(Some(Render(es))) == Success(MapOf(es))
  {
    RenderAvoidsCR(es);
    LinesOfRender(es);
    var lines := RenderLines(es);
    forall i | 0 <= i < |lines| ensures ParseLine(lines[i]) == Some(es[i]) {
      ParseRenderLine(es[i]);
    }
    var r := ParseEntries(lines);
    assert r.Some?;
    assert r.value == es;
  }

  /** Everything a prior manifest yields can be written again: its paths and
      digests are clean. */
  lemma LoadedIsClean(text: string, m: map<string, string>)
    requires LoadInfile(Some(text)) == Success(m)
    ensures forall p :: p in m ==> CleanPath(p) && CleanHex(m[p])
  {
    var t := UniversalNewlines(text);
    var lines := Lines(t);
    LinesAvoid(t, '\r');
    LinesSpec(t);
    var es := ParseEntries(lines).value;
    forall p | p in m ensures CleanPath(p) && CleanHex(m[p]) {
      var i :| 0 <= i < |es| && es[i].0 == p;
      var j := LastFor(es, i);
      LastRecordWins(es, j);
      RecordIsClean(lines[j], es[j]);
    }
  }

  /** The index of the last record for the path of record `i`. */
  function LastFor(es: seq<Entry>, i: nat): (j: nat)
    requires i < |es|
    ensures i <= j < |es| && es[j].0 == es[i].0
    ensures forall k :: j < k < |es| ==> es[k].0 != es[j].0
    decreases |es| - i
  {
    if exists k :: i < k < |es| && es[k].0 == es[i].0 then
      var k :| i < k < |es| && es[k].0 == es[i].0;
      LastFor(es, k)
    else
      i
  }

  /** A record parsed from one line of a text file is clean. */
  lemma RecordIsClean(line: string, e: Entry)
    requires line != [] && '\n' !in line[..|line| - 1] && '\r' !in line
    requires ParseLine(line) == Some(e)
    ensures CleanPath(e.0) && CleanHex(e.1)
  {
    var body := RStrip(line);
    RStripSpec(line);
    assert body == e.0 + "\t" + e.1;
    assert '\r' !in body;
    if body == line {
      assert !IsSpace(line[|line| - 1]);
      assert '\n' !in body;
    } else {
      assert body <= line[..|line| - 1];
      assert '\n' !in body;
    }
    assert body[|e.0|] == '\t';
    assert e.1[|e.1| - 1] == body[|body| - 1];
  }
}
