/** The parse of ImageNet's `LOC_synset_mapping.txt` into the `data`
    dictionary: one entry per line, keyed by the line's class id (its wnid),
    holding the class name, the raw synset text and the remaining synonyms. */
module PreprocessImagenet {
  import opened PyStrings

  /** The value stored under a class id: `{"class": ..., "synset": ...,
      "synonyms": [...]}`. */
  datatype Entry = Entry(className: string, synset: string, synonyms: seq<string>)

  /** What one line contributes: the key and the value stored under it. */
  datatype ParsedLine = ParsedLine(classId: string, entry: Entry)

  /** The class name followed by the synonyms are the comma-separated pieces
      of the stored synset text, each stripped. */
  predicate ConsistentEntry(e: Entry) {
    [e.className] + e.synonyms == StripEach(Split(e.synset, ','))
  }

  /** One round of the loop over the file's lines: strip the line, split it on
      single spaces, take the first token as the class id, glue the other
      tokens together with no separator into the synset text, and split that
      on commas into the class name and its synonyms. Every line parses; the
      synonyms are as many as the commas in the synset text. */
  function ParseLine(line: string): (p: ParsedLine)
    ensures ConsistentEntry(p.entry)
    ensures |p.entry.synonyms| == Count(p.entry.synset, ',')
  {
    var parsed := Split(Strip(line), ' ');
    var classId := parsed[0];
    var synset := Concat(parsed[1..]);
    var synsetSplits := StripEach(Split(synset, ','));
    ParsedLine(classId, Entry(synsetSplits[0], synset, synsetSplits[1..]))
  }

  /** The class id is the stripped line up to its first space, or the whole
      stripped line when it has none. */
  lemma ClassIdOfLine(line: string)
    ensures var t := Strip(line); var id := ParseLine(line).classId;
      && |id| <= |t| && id == t[..|id|] && ' ' !in id
      && (|id| < |t| ==> t[|id|] == ' ')
  {
    SplitHead(Strip(line), ' ');
  }

  /** The synset text is what follows the first space of the stripped line,
      with every space deleted (empty when there is no space), so it holds no
      space at all. */
  lemma SynsetOfLine(line: string)
    ensures var t := Strip(line); var p := ParseLine(line);
      && |p.classId| <= |t|
      && p.entry.synset == (if |p.classId| == |t| then [] else Without(t[|p.classId| + 1..], ' '))
      && ' ' !in p.entry.synset
  {
    var t := Strip(line);
    SplitHead(t, ' ');
    ConcatOfSplitTail(t, ' ');
  }

  /** A blank (or all-whitespace) line does not fail: it yields the empty
      class id, an empty class name and synset, and no synonyms. */
  lemma BlankLine(line: string)
    requires forall k :: 0 <= k < |line| ==> IsSpace(line[k])
    ensures ParseLine(line) == ParsedLine([], Entry([], [], []))
  {
    StripAllSpace(line);
    assert Split([], ' ') == [[]];
    assert Concat([]) == [];
    assert Split([], ',') == [[]];
    assert StripEach([[]]) == [[]];
  }

  /** `f` applied to each element of `xs`, in order. */
  function MapSeq<A, B>(xs: seq<A>, f: A -> B): (r: seq<B>)
    ensures |r| == |xs|
    ensures forall i :: 0 <= i < |r| ==> r[i] == f(xs[i])
  {
    if xs == [] then [] else MapSeq(xs[..|xs| - 1], f) + [f(xs[|xs| - 1])]
  }

  /** The parsed form of each line, in file order. */
  function ParseLines(lines: seq<string>): seq<ParsedLine> {
    MapSeq(lines, ParseLine)
  }

  /** `data[class_id] = entry` for each record in order: a later record
      replaces what an earlier one with the same class id stored. */
  function Store(records: seq<ParsedLine>): map<string, Entry> {
    if records == [] then map[]
    else
      var p := records[|records| - 1];
      Store(records[..|records| - 1])[p.classId := p.entry]
  }

  /** The dictionary after every line of the mapping file has been parsed and
      stored. */
  function Mapping(lines: seq<string>): map<string, Entry> {
    Store(ParseLines(lines))
  }

  /** The module-level loop filling `data`. */
  method BuildMapping(lines: seq<string>) returns (data: map<string, Entry>)
    ensures data == Mapping(lines)
    ensures data.Keys == set i | 0 <= i < |lines| :: ParseLine(lines[i]).classId
    ensures forall id :: id in data ==> ConsistentEntry(data[id])
  {
    data := map[];
    for i := 0 to |lines|
      invariant data == Store(ParseLines(lines[..i]))
    {
      var p := ParseLine(lines[i]);
      data := data[p.classId := p.entry];
      ParseLinesSnoc(lines, i);
      StoreSnoc(ParseLines(lines[..i]), p);
    }
    assert lines[..|lines|] == lines;
    MappingKeys(lines);
    MappingConsistent(lines);
  }

  lemma ParseLinesSnoc(lines: seq<string>, i: nat)
    requires i < |lines|
    ensures ParseLines(lines[..i + 1]) == ParseLines(lines[..i]) + [ParseLine(lines[i])]
  {
    MapSeqSnoc(lines, i, ParseLine);
  }

  lemma StoreSnoc(records: seq<ParsedLine>, p: ParsedLine)
    ensures Store(records + [p]) == Store(records)[p.classId := p.entry]
  {
    assert (records + [p])[..|records|] == records;
  }

  lemma MapSeqSnoc<A, B>(xs: seq<A>, i: nat, f: A -> B)
    requires i < |xs|
    ensures MapSeq(xs[..i + 1], f) == MapSeq(xs[..i], f) + [f(xs[i])]
  {
    assert xs[..i + 1][..i] == xs[..i];
  }

  /** The keys stored are exactly the class ids of the records. */
  lemma {:induction false} StoreKeys(records: seq<ParsedLine>)
    ensures Store(records).Keys == set i | 0 <= i < |records| :: records[i].classId
  {
    if records != [] {
      var n := |records| - 1;
      var init := records[..n];
      StoreKeys(init);
      var all := set i | 0 <= i < |records| :: records[i].classId;
      var before := set i | 0 <= i < |init| :: init[i].classId;
      assert all == before + {records[n].classId} by {
        forall id | id in all ensures id in before + {records[n].classId} {
          var i :| 0 <= i < |records| && records[i].classId == id;
          if i < n {
            assert init[i] == records[i];
          }
        }
        forall id | id in before ensures id in all {
          var i :| 0 <= i < |init| && init[i].classId == id;
          assert records[i] == init[i];
        }
      }
    }
  }

  /** The keys are exactly the class ids of the lines. */
  lemma MappingKeys(lines: seq<string>)
    ensures Mapping(lines).Keys == set i | 0 <= i < |lines| :: ParseLine(lines[i]).classId
  {
    var records := ParseLines(lines);
    StoreKeys(records);
    assert (set i | 0 <= i < |records| :: records[i].classId)
        == (set i | 0 <= i < |lines| :: ParseLine(lines[i]).classId);
  }

  /** A later record wins: the entry stored under a class id is the one of
      the last record carrying that class id. */
  lemma {:induction false} StoreLastWins(records: seq<ParsedLine>, i: nat)
    requires i < |records|
    requires forall j :: i < j < |records| ==> records[j].classId != records[i].classId
    ensures records[i].classId in Store(records)
    ensures Store(records)[records[i].classId] == records[i].entry
  {
    var n := |records| - 1;
    if i < n {
      var init := records[..n];
      assert init[i] == records[i];
      forall j | i < j < |init|
        ensures init[j].classId != init[i].classId
      {
        assert init[j] == records[j];
      }
      StoreLastWins(init, i);
    }
  }

  /** Later lines win: the entry stored under a class id is the one parsed from
      the last line carrying that class id. */
  lemma MappingLastWins(lines: seq<string>, i: nat)
    requires i < |lines|
    requires forall j :: i < j < |lines| ==> ParseLine(lines[j]).classId != ParseLine(lines[i]).classId
    ensures ParseLine(lines[i]).classId in Mapping(lines)
    ensures Mapping(lines)[ParseLine(lines[i]).classId] == ParseLine(lines[i]).entry
  {
    StoreLastWins(ParseLines(lines), i);
  }

  /** Every stored entry is consistent with its synset text. */
  lemma {:induction false} StoreConsistent(records: seq<ParsedLine>)
    requires forall i :: 0 <= i < |records| ==> ConsistentEntry(records[i].entry)
    ensures forall id :: id in Store(records) ==> ConsistentEntry(Store(records)[id])
  {
    if records != [] {
      StoreConsistent(records[..|records| - 1]);
    }
  }

  lemma MappingConsistent(lines: seq<string>)
    ensures forall id :: id in Mapping(lines) ==> ConsistentEntry(Mapping(lines)[id])
  {
    StoreConsistent(ParseLines(lines));
  }
}
