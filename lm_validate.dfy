/**
 * The Last-Modified validation check. When the base response carries
 * Last-Modified, the check repeats the base request with an
 * If-Modified-Since header holding that time as an IMF-fixdate
 * (section 7.1.1.1 of RFC 7231) and classifies the answer: a
 * 304 Not Modified (section 4.1 of RFC 7232) shows support, a full answer
 * with an unchanged payload shows the lack of it, and anything else is
 * inconclusive. The outcome is written to the base resource's
 * `imsSupport` flag and notes.
 */
module LmValidation {
  import opened Wrappers
  import opened Decimal
  import opened Calendar
  import opened Notes
  import opened Resource

  /** Three-letter day names, indexed by `date.weekday()` (Monday is 0). */
  const Weekdays: seq<string> := ["Mon", "Tue", "Wed", "Thu", "Fri", "Sat", "Sun"]

  /** Three-letter month names indexed by month number; slot 0 (None in the source) is never used. */
  const Months: seq<string> :=
    ["", "Jan", "Feb", "Mar", "Apr", "May", "Jun", "Jul", "Aug", "Sep", "Oct", "Nov", "Dec"]

  /** The headers whose absence from a 304 answer is reported. */
  const MissingHdrs304: seq<string> := ["cache-control", "content-location", "etag", "expires", "vary"]

  /**
   * `"%s, %.2d %s %.4d %.2d:%.2d:%.2d GMT"` filled with the weekday name,
   * day, month name, year, hour, minute and second: 29 characters for every
   * year in 1..9999, and the IMF-fixdate parser reads the same date and
   * time back from it.
   */
  function ImfFixdate(dt: DateTime): (s: string)
    requires ValidDateTime(dt) && MinYear <= dt.date.year <= MaxYear
    ensures |s| == 29
    ensures ParseImfFixdate(s) == Some(dt)
  {
    var s := Weekdays[Weekday(dt.date)] + ", " + ZeroPad(dt.date.day, 2) + " "
      + Months[dt.date.month] + " " + ZeroPad(dt.date.year, 4) + " "
      + ZeroPad(dt.hour, 2) + ":" + ZeroPad(dt.minute, 2) + ":" + ZeroPad(dt.second, 2) + " GMT";
    FixdateFields(dt, s);
    s
  }

  lemma FixdateFields(dt: DateTime, s: string)
    requires ValidDateTime(dt) && MinYear <= dt.date.year <= MaxYear
    requires s == Weekdays[Weekday(dt.date)] + ", " + ZeroPad(dt.date.day, 2) + " "
      + Months[dt.date.month] + " " + ZeroPad(dt.date.year, 4) + " "
      + ZeroPad(dt.hour, 2) + ":" + ZeroPad(dt.minute, 2) + ":" + ZeroPad(dt.second, 2) + " GMT"
    ensures |s| == 29
    ensures ParseImfFixdate(s) == Some(dt)
  {
    var wd, day, mon := Weekdays[Weekday(dt.date)], ZeroPad(dt.date.day, 2), Months[dt.date.month];
    var year, hh, mm, ss := ZeroPad(dt.date.year, 4), ZeroPad(dt.hour, 2), ZeroPad(dt.minute, 2), ZeroPad(dt.second, 2);
    assert |wd| == 3 && |mon| == 3;
    assert |day| == 2 && |year| == 4 && |hh| == 2 && |mm| == 2 && |ss| == 2;
    FixdateLayout(wd, day, mon, year, hh, mm, ss, s);
    MonthNumberOfName(dt.date.month);
  }

  /** Where each field sits in the 29-character layout. */
  lemma FixdateLayout(wd: string, day: string, mon: string, year: string,
                      hh: string, mm: string, ss: string, s: string)
    requires |wd| == 3 && |mon| == 3 && |day| == 2 && |year| == 4 && |hh| == 2 && |mm| == 2 && |ss| == 2
    requires s == wd + ", " + day + " " + mon + " " + year + " " + hh + ":" + mm + ":" + ss + " GMT"
    ensures |s| == 29
    ensures s[..3] == wd && s[3..5] == ", " && s[5..7] == day && s[7] == ' ' && s[8..11] == mon
    ensures s[11] == ' ' && s[12..16] == year && s[16] == ' ' && s[17..19] == hh && s[19] == ':'
    ensures s[20..22] == mm && s[22] == ':' && s[23..25] == ss && s[25..] == " GMT"
  {
    assert forall i :: 0 <= i < 3 ==> s[i] == wd[i];
    assert forall i :: 0 <= i < 2 ==> s[5 + i] == day[i];
    assert forall i :: 0 <= i < 3 ==> s[8 + i] == mon[i];
    assert forall i :: 0 <= i < 4 ==> s[12 + i] == year[i];
    assert forall i :: 0 <= i < 2 ==> s[17 + i] == hh[i];
    assert forall i :: 0 <= i < 2 ==> s[20 + i] == mm[i];
    assert forall i :: 0 <= i < 2 ==> s[23 + i] == ss[i];
  }

  /** The number of a three-letter month name, or 0 when it names no month. */
  function MonthNumber(name: string): (m: int)
    ensures 0 <= m <= 12
    ensures 1 <= m ==> Months[m] == name
  {
    MonthNumberFrom(name, 1)
  }

  function MonthNumberFrom(name: string, m: int): (r: int)
    requires 1 <= m <= 13
    ensures r == 0 || (m <= r <= 12 && Months[r] == name)
    decreases 13 - m
  {
    if m == 13 then 0
    else if Months[m] == name then m
    else MonthNumberFrom(name, m + 1)
  }

  lemma MonthNumberOfName(m: int)
    requires 1 <= m <= 12
    ensures MonthNumber(Months[m]) == m
  {
    var k := 1;
    while k < m
      invariant 1 <= k <= m
      invariant MonthNumberFrom(Months[m], k) == MonthNumberFrom(Months[m], 1)
    {
      assert Months[k] != Months[m];
      k := k + 1;
    }
  }

  /**
   * An IMF-fixdate reader (section 7.1.1.1 of RFC 7231): the fixed layout
   * `Www, DD Mon YYYY HH:MM:SS GMT`, a real date and time, and a day name
   * that matches the date.
   */
  function ParseImfFixdate(s: string): (r: Option<DateTime>)
    ensures r.Some? ==> ValidDateTime(r.value)
  {
    if |s| == 29 && s[3..5] == ", " && s[7] == ' ' && s[11] == ' ' && s[16] == ' '
      && s[19] == ':' && s[22] == ':' && s[25..] == " GMT"
      && IsDigits(s[5..7]) && IsDigits(s[12..16])
      && IsDigits(s[17..19]) && IsDigits(s[20..22]) && IsDigits(s[23..25])
    then
      var date := Date(Value(s[12..16]), MonthNumber(s[8..11]), Value(s[5..7]));
      var dt := DateTime(date, Value(s[17..19]), Value(s[20..22]), Value(s[23..25]));
      if ValidDateTime(dt) && s[..3] == Weekdays[Weekday(date)] then Some(dt) else None
    else
      None
  }

  /**
   * `modify_req_hdrs`: a copy of the base request headers, followed by one
   * If-Modified-Since header when the base response has a Last-Modified
   * time that converts to a date (otherwise the copy alone). The added
   * value denotes exactly the Last-Modified instant.
   */
  function ModifyReqHdrs(request: Request, response: Response): (r: seq<Header>)
    ensures |request.headers| <= |r| <= |request.headers| + 1
    ensures r[..|request.headers|] == request.headers
    ensures |r| == |request.headers| + 1
        <==> response.lastModified.Some? && UtcFromTimestamp(response.lastModified.value).Some?
    ensures |r| == |request.headers| + 1 ==>
              && r[|r| - 1].0 == "If-Modified-Since"
              && |r[|r| - 1].1| == 29
              && var parsed := ParseImfFixdate(r[|r| - 1].1);
                 parsed.Some? && ToTimestamp(parsed.value) == response.lastModified.value
  {
    var reqHdrs := request.headers;
    if response.lastModified.Some? then
      match UtcFromTimestamp(response.lastModified.value)
      case None => reqHdrs
      case Some(lm) => reqHdrs + [("If-Modified-Since", ImfFixdate(lm))]
    else
      reqHdrs
  }

  /** What `done` decides: the new flag value, the one note it adds, and whether it checks for missing headers. */
  datatype Outcome = Outcome(flag: TriState, note: Note, checkMissing: bool)

  /**
   * The classification in `done`. An incomplete probe is reported as a
   * problem; a 304 shows support (even when the base status was 304 too);
   * the base status again with the same payload hash shows the lack of
   * support; the base status with a different payload is inconclusive; any
   * other status is reported as such. Exactly one note is added, and the
   * flag changes only on the two decisive branches.
   */
  function Classify(base: Response, probe: Response, flag: TriState): (o: Outcome)
    requires probe.complete || probe.httpError.Some?
    ensures o.note.kind.category == Validation
    ensures o.note.kind == LmSubreqProblem <==> !probe.complete
    ensures o.note.kind == Ims304 <==> probe.complete && probe.statusCode == "304"
    ensures o.note.kind == ImsFull <==>
              && probe.complete && probe.statusCode != "304"
              && probe.statusCode == base.statusCode && probe.payloadMd5 == base.payloadMd5
    ensures o.note.kind == ImsUnknown <==>
              && probe.complete && probe.statusCode != "304"
              && probe.statusCode == base.statusCode && probe.payloadMd5 != base.payloadMd5
    ensures o.note.kind == ImsStatus <==>
              probe.complete && probe.statusCode != "304" && probe.statusCode != base.statusCode
    ensures o.flag == (if o.note.kind == Ims304 then Yes else if o.note.kind == ImsFull then No else flag)
    ensures o.checkMissing <==> o.note.kind == Ims304
    ensures !probe.complete ==> o.note.params == [("problem", probe.httpError.value.desc)]
    ensures o.note.kind == ImsStatus ==> ("ims_status", probe.statusCode) in o.note.params
  {
    if !probe.complete then
      Outcome(flag, Note(LmSubreqProblem, "", [("problem", probe.httpError.value.desc)]), false)
    else if probe.statusCode == "304" then
      Outcome(Yes, Note(Ims304, "header-last-modified", []), true)
    else if probe.statusCode == base.statusCode then
      if probe.payloadMd5 == base.payloadMd5 then
        Outcome(No, Note(ImsFull, "header-last-modified", []), false)
      else
        Outcome(flag, Note(ImsUnknown, "header-last-modified", []), false)
    else
      Outcome(flag, Note(ImsStatus, "header-last-modified",
        [("ims_status", probe.statusCode),
         ("enc_ims_status", if probe.statusCode == "" then "(unknown)" else probe.statusCode)]), false)
  }

  /**
   * The flag follows the severity of the note: it becomes Yes only with the
   * Good note, No only with the Warn note, and the Bad and Info outcomes
   * leave it as it was.
   */
  lemma ClassifyFlagFollowsLevel(base: Response, probe: Response, flag: TriState)
    requires probe.complete || probe.httpError.Some?
    ensures var o := Classify(base, probe, flag);
      && (o.note.kind.level == Good <==> o.flag == Yes && o.checkMissing)
      && (o.note.kind.level == Warn ==> o.flag == No)
      && (o.note.kind.level in {Bad, Info} ==> o.flag == flag)
      && (o.flag != flag ==> o.note.kind.level in {Good, Warn})
  {
  }

  /** A call of the shared missing-header check: the header names and the request header under test. */
  datatype MissingHdrsCheck = MissingHdrsCheck(headers: seq<string>, requestHeader: string)

  class LmValidate {
    const base: HttpResource
    /** This check's own response, as the fetch delivered it (fetching is not modelled). */
    const response: Response
    /** The missing-header checks run so far, in order. */
    var missingHdrsChecks: seq<MissingHdrsCheck>

    constructor (base: HttpResource, response: Response)
      ensures this.base == base && this.response == response && missingHdrsChecks == []
    {
      this.base := base;
      this.response := response;
      missingHdrsChecks := [];
    }

    /**
     * `preflight`: the check applies exactly when the base response has a
     * Last-Modified time; when it does not, the flag is set to No. Nothing
     * else changes.
     */
    method Preflight() returns (applicable: bool)
      modifies base`imsSupport
      ensures applicable <==> base.response.lastModified.Some?
      ensures base.imsSupport == if applicable then old(base.imsSupport) else No
    {
      if base.response.lastModified.Some? {
        return true;
      } else {
        base.imsSupport := No;
        return false;
      }
    }

    /** Appends one note to the base resource. */
    method AddBaseNote(subject: string, kind: NoteKind, params: seq<Param>)
      modifies base`notes
      ensures base.notes == old(base.notes) + [Note(kind, subject, params)]
    {
      base.notes := base.notes + [Note(kind, subject, params)];
    }

    /**
     * Records a check that each of `headers` is present in this check's
     * response; the notes it adds for missing ones are not modelled.
     */
    method CheckMissingHdrs(headers: seq<string>, requestHeader: string)
      modifies this`missingHdrsChecks
      ensures missingHdrsChecks == old(missingHdrsChecks) + [MissingHdrsCheck(headers, requestHeader)]
    {
      missingHdrsChecks := missingHdrsChecks + [MissingHdrsCheck(headers, requestHeader)];
    }

    /**
     * `done`: applies the classification of this check's response to the
     * base resource — the flag takes the outcome's value, exactly the one
     * outcome note is appended, and on a 304 the five headers are checked.
     */
    method Done()
      requires response.complete || response.httpError.Some?
      modifies base`imsSupport, base`notes, this`missingHdrsChecks
      ensures var o := Classify(base.response, response, old(base.imsSupport));
        && base.imsSupport == o.flag
        && base.notes == old(base.notes) + [o.note]
        && missingHdrsChecks == old(missingHdrsChecks)
             + (if o.checkMissing then [MissingHdrsCheck(MissingHdrs304, "If-Modified-Since")] else [])
    {
      if !response.complete {
        AddBaseNote("", LmSubreqProblem, [("problem", response.httpError.value.desc)]);
        return;
      }
      if response.statusCode == "304" {
        base.imsSupport := Yes;
        AddBaseNote("header-last-modified", Ims304, []);
        CheckMissingHdrs(MissingHdrs304, "If-Modified-Since");
      } else if response.statusCode == base.response.statusCode {
        if response.payloadMd5 == base.response.payloadMd5 {
          base.imsSupport := No;
          AddBaseNote("header-last-modified", ImsFull, []);
        } else {
          AddBaseNote("header-last-modified", ImsUnknown, []);
        }
      } else {
        var status := response.statusCode;
        AddBaseNote("header-last-modified", ImsStatus,
          [("ims_status", status), ("enc_ims_status", if status == "" then "(unknown)" else status)]);
      }
    }
  }

  /** Last-Modified 1678000089, 2023-03-05T07:08:09 UTC (a Sunday), gives the header value "Sun, 05 Mar 2023 07:08:09 GMT". */
  lemma ModifyReqHdrsExample()
    ensures ModifyReqHdrs(Request("http://example.com/", []),
                          Response("200", true, None, "", Some(1678000089)))
         == [("If-Modified-Since", "Sun, 05 Mar 2023 07:08:09 GMT")]
  {
    ExampleTimestamp();
    ExampleFixdate();
  }

  lemma ExampleTimestamp()
    ensures UtcFromTimestamp(1678000089) == Some(DateTime(Date(2023, 3, 5), 7, 8, 9))
  {
    var dt := DateTime(Date(2023, 3, 5), 7, 8, 9);
    assert Ordinal(dt.date) == 738584;
    TimestampRoundTrip(dt);
  }

  lemma ExampleFixdate()
    ensures ImfFixdate(DateTime(Date(2023, 3, 5), 7, 8, 9)) == "Sun, 05 Mar 2023 07:08:09 GMT"
  {
    ExampleWeekday();
    ExampleYear();
    SmallPad(5);
    SmallPad(7);
    SmallPad(8);
    SmallPad(9);
    FixdateOfParts(DateTime(Date(2023, 3, 5), 7, 8, 9), "Sun", "05", "Mar", "2023", "07", "08", "09");
    ExampleText();
  }

  lemma ExampleText()
    ensures "Sun" + ", " + "05" + " " + "Mar" + " " + "2023" + " " + "07" + ":" + "08" + ":" + "09" + " GMT"
         == "Sun, 05 Mar 2023 07:08:09 GMT"
  {
  }

  /** The fixdate assembled from its fields. */
  lemma FixdateOfParts(dt: DateTime, wd: string, day: string, mon: string, year: string,
                       hh: string, mm: string, ss: string)
    requires ValidDateTime(dt) && MinYear <= dt.date.year <= MaxYear
    requires wd == Weekdays[Weekday(dt.date)] && day == ZeroPad(dt.date.day, 2) && mon == Months[dt.date.month]
    requires year == ZeroPad(dt.date.year, 4) && hh == ZeroPad(dt.hour, 2)
    requires mm == ZeroPad(dt.minute, 2) && ss == ZeroPad(dt.second, 2)
    ensures ImfFixdate(dt) == wd + ", " + day + " " + mon + " " + year + " " + hh + ":" + mm + ":" + ss + " GMT"
  {
  }

  lemma ExampleWeekday()
    ensures Weekdays[Weekday(Date(2023, 3, 5))] == "Sun"
  {
    assert Ordinal(Date(2023, 3, 5)) == 738584;
  }

  lemma ExampleYear()
    ensures ZeroPad(2023, 4) == "2023"
  {
    assert Digits(20) == Digits(2) + "0";
    assert Digits(202) == Digits(20) + "2";
    assert Digits(2023) == Digits(202) + "3";
  }

  lemma SmallPad(n: nat)
    requires n < 10
    ensures ZeroPad(n, 2) == ['0', DigitChar(n)]
  {
    assert Digits(n) == [DigitChar(n)];
    assert Zeros(1) == ['0'];
  }
}
