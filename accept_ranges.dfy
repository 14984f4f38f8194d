/**
 * The Accept-Ranges response header (section 2.3 of RFC 7233). Each list
 * element is lowercased, and a range unit other than `bytes` or `none`
 * (the two units section 2 of RFC 7233 defines) is reported with an
 * UNKNOWN_RANGE note. Splitting the field value into elements and its
 * grammar belong to the shared header framework; here the elements arrive
 * already split.
 */
module AcceptRanges {
  import opened Wrappers
  import opened Notes
  import opened Text

  /** The range units HTTP defines. */
  const KnownUnits: seq<string> := ["bytes", "none"]

  /** One call of the parser's add-note callback: the note kind and its template values. */
  datatype Raised = Raised(kind: NoteKind, params: seq<Param>)

  /** The parsed element and the note raised while parsing it, if any. */
  datatype Parsed = Parsed(value: string, note: Option<Raised>)

  /**
   * `accept_ranges.parse`: the lowercased element, with one UNKNOWN_RANGE
   * note (a Range warning naming the lowercased unit) exactly when the
   * element is neither `bytes` nor `none` in any letter case.
   */
  function Parse(fieldValue: string): (r: Parsed)
    ensures r.value == Lower(fieldValue)
    ensures r.note.None? <==> EqualIgnoringCase(fieldValue, "bytes") || EqualIgnoringCase(fieldValue, "none")
    ensures r.note.Some? ==> r.note.value == Raised(UnknownRange, [("range", r.value)])
    ensures r.note.Some? ==> r.note.value.kind.category == Range && r.note.value.kind.level == Warn
  {
    var v := Lower(fieldValue);
    LowerEqualIff(fieldValue, "bytes");
    LowerEqualIff(fieldValue, "none");
    KnownUnitsAreLower();
    if v !in KnownUnits then Parsed(v, Some(Raised(UnknownRange, [("range", v)])))
    else Parsed(v, None)
  }

  lemma KnownUnitsAreLower()
    ensures Lower("bytes") == "bytes" && Lower("none") == "none"
  {
  }

  /** Parsing what the parser returned gives the same value and the same note. */
  lemma ParseIdempotent(fieldValue: string)
    ensures Parse(Parse(fieldValue).value) == Parse(fieldValue)
  {
    LowerIdempotent(fieldValue);
  }

  /** Two elements parse alike exactly when they differ only in letter case. */
  lemma ParseCaseInsensitive(a: string, b: string)
    ensures Parse(a) == Parse(b) <==> EqualIgnoringCase(a, b)
  {
    LowerEqualIff(a, b);
  }

  /** A whole header: each element parsed in order. */
  function ParseElements(elements: seq<string>): (r: seq<Parsed>)
    ensures |r| == |elements|
    ensures forall i :: 0 <= i < |elements| ==> r[i] == Parse(elements[i])
  {
    seq(|elements|, i requires 0 <= i < |elements| => Parse(elements[i]))
  }

  // The header's own test cases: input elements, parsed values and notes.

  lemma AcceptRangeTest()
    ensures ParseElements(["bytes"]) == [Parsed("bytes", None)]
  {
    ParseKnown();
  }

  lemma NoneAcceptRangeTest()
    ensures ParseElements(["none"]) == [Parsed("none", None)]
  {
    ParseKnown();
  }

  lemma BothAcceptRangeTest()
    ensures ParseElements(["bytes", "none"]) == [Parsed("bytes", None), Parsed("none", None)]
  {
    ParseKnown();
  }

  lemma BadAcceptRangeTest()
    ensures ParseElements(["foo"]) == [Parsed("foo", Some(Raised(UnknownRange, [("range", "foo")])))]
  {
    assert Lower("foo") == "foo";
  }

  lemma CaseAcceptRangeTest()
    ensures ParseElements(["Bytes", "NONE"]) == [Parsed("bytes", None), Parsed("none", None)]
  {
    ParseKnown();
  }

  lemma ParseKnown()
    ensures Parse("bytes") == Parsed("bytes", None) && Parse("none") == Parsed("none", None)
    ensures Parse("Bytes") == Parsed("bytes", None) && Parse("NONE") == Parsed("none", None)
  {
    assert Lower("bytes") == "bytes" && Lower("none") == "none";
    assert Lower("Bytes") == "bytes" && Lower("NONE") == "none";
  }
}
