/**
 * The logic inside the HTML formatter that is more than templating: the
 * JavaScript string escaper, the yes/no/unknown table cell, the query
 * string that links to another report, the numbered problem registry of
 * the summary table with its URI truncation, and the choice of notes and
 * sub-request links shown for one note category. HTML templates, HTML and
 * URL escaping and the note texts are not modelled; URL quoting and
 * joining are passed in as functions.
 */
module HtmlFormatter {
  import opened Wrappers
  import opened Decimal
  import opened Notes
  import opened Resource
  import opened Text

  // ---------------------------------------------------------------------
  // e_js

  /** `s.replace(c, rep)` for a one-character pattern. */
  function ReplaceChar(s: string, c: char, rep: string): (r: string)
    ensures c !in rep ==> c !in r
    ensures c !in s ==> r == s
  {
    if s == [] then [] else (if s[0] == c then rep else [s[0]]) + ReplaceChar(s[1..], c, rep)
  }

  lemma {:induction false} ReplaceCharAppend(a: string, b: string, c: char, rep: string)
    ensures ReplaceChar(a + b, c, rep) == ReplaceChar(a, c, rep) + ReplaceChar(b, c, rep)
    decreases |a|
  {
    if a == [] {
      assert a + b == b;
    } else {
      assert (a + b)[1..] == a[1..] + b;
      ReplaceCharAppend(a[1..], b, c, rep);
    }
  }

  /** How `e_js` writes one character inside a double-quoted JavaScript string. */
  function EscapeChar(c: char): string {
    if c == '\\' then "\\\\"
    else if c == '"' then "\\\""
    else if c == '<' then "\\x3c"
    else [c]
  }

  function EscapeEach(s: string): string {
    if s == [] then [] else EscapeChar(s[0]) + EscapeEach(s[1..])
  }

  /**
   * `e_js`: doubles backslashes, then escapes double quotes, then writes
   * `<` as `\x3c`. The result reads back as the input when taken as the
   * body of a double-quoted JavaScript string (so no quote in it ends the
   * string early), it holds no `<`, and text without `\`, `"` or `<` is
   * returned unchanged.
   */
  function EJs(s: string): (r: string)
    ensures s == "" ==> r == ""
    ensures JsStringValue(r) == Some(s)
    ensures '<' !in r
    ensures '\\' !in s && '"' !in s && '<' !in s ==> r == s
  {
    if s == "" then ""
    else
      var r := ReplaceChar(ReplaceChar(ReplaceChar(s, '\\', "\\\\"), '"', "\\\""), '<', "\\x3c");
      EJsIsEscapeEach(s);
      EscapeEachReadsBack(s);
      r
  }

  lemma {:induction false} EJsIsEscapeEach(s: string)
    ensures ReplaceChar(ReplaceChar(ReplaceChar(s, '\\', "\\\\"), '"', "\\\""), '<', "\\x3c") == EscapeEach(s)
    decreases |s|
  {
    if s != [] {
      var c, rest := s[0], s[1..];
      var a := ReplaceChar(rest, '\\', "\\\\");
      var b := ReplaceChar(a, '"', "\\\"");
      var first := if c == '\\' then "\\\\" else [c];
      assert ReplaceChar(s, '\\', "\\\\") == first + a;
      ReplaceCharAppend(first, a, '"', "\\\"");
      var first2 := ReplaceChar(first, '"', "\\\"");
      ReplaceCharAppend(first2, b, '<', "\\x3c");
      EJsIsEscapeEach(rest);
      assert ReplaceChar(ReplaceChar(first, '"', "\\\""), '<', "\\x3c") == EscapeChar(c);
    }
  }

  /**
   * The value of the body of a double-quoted JavaScript string, for the
   * escapes `\\`, `\"` and `\x3c`; None when an unescaped `"` would end
   * the string early or an escape is not one of these.
   */
  function JsStringValue(r: string): Option<string>
    decreases |r|
  {
    if r == [] then Some([])
    else if r[0] == '"' then None
    else if r[0] == '\\' then
      if |r| >= 2 && r[1] == '\\' then Prepend('\\', JsStringValue(r[2..]))
      else if |r| >= 2 && r[1] == '"' then Prepend('"', JsStringValue(r[2..]))
      else if |r| >= 4 && r[1..4] == "x3c" then Prepend('<', JsStringValue(r[4..]))
      else None
    else Prepend(r[0], JsStringValue(r[1..]))
  }

  function Prepend(c: char, o: Option<string>): Option<string> {
    if o.Some? then Some([c] + o.value) else None
  }

  lemma {:induction false} EscapeEachReadsBack(s: string)
    ensures JsStringValue(EscapeEach(s)) == Some(s)
    ensures '<' !in EscapeEach(s)
    ensures '\\' !in s && '"' !in s && '<' !in s ==> EscapeEach(s) == s
    decreases |s|
  {
    if s != [] {
      var e, rest := EscapeChar(s[0]), EscapeEach(s[1..]);
      var r := e + rest;
      EscapeEachReadsBack(s[1..]);
      assert r[|e|..] == rest;
      if s[0] == '\\' || s[0] == '"' {
        assert r[2..] == rest;
      } else if s[0] == '<' {
        assert r[1..4] == "x3c" && r[4..] == rest;
      } else {
        assert r[1..] == rest;
      }
      assert [s[0]] + s[1..] == s;
    }
  }

  // ---------------------------------------------------------------------
  // format_yes_no

  const StaticRoot := "static"

  /** The icon of `format_yes_no` for each value. */
  function YesNoIcon(value: TriState): string {
    match value
    case Yes => "accept1.png"
    case No => "remove-16.png"
    case Unknown => "help1.png"
  }

  /** The alt text of `format_yes_no` for each value. */
  function YesNoAlt(value: TriState): string {
    match value
    case Yes => "yes"
    case No => "no"
    case Unknown => "unknown"
  }

  /** `icon_tpl`: an image cell for one icon under the static root. */
  function IconCell(icon: string, alt: string): string {
    "<td><img src=\"" + StaticRoot + "/icon/" + icon + "\" alt=\"" + alt + "\"/></td>"
  }

  /** Where the icon and the alt text sit in an image cell. */
  lemma IconCellLayout(icon: string, alt: string)
    ensures |IconCell(icon, alt)| == 26 + |icon| + 7 + |alt| + 8
    ensures IconCell(icon, alt)[..26] == "<td><img src=\"static/icon/"
    ensures IconCell(icon, alt)[26..26 + |icon|] == icon
    ensures IconCell(icon, alt)[26 + |icon| + 7..26 + |icon| + 7 + |alt|] == alt
  {
    var head := "<td><img src=\"static/icon/";
    var mid := "\" alt=\"";
    var tail := "\"/></td>";
    assert |head| == 26 && |mid| == 7 && |tail| == 8;
    var c := head + icon + mid + alt + tail;
    assert IconCell(icon, alt) == c;
    assert c[..26] == head;
    assert c[26..26 + |icon|] == icon;
    assert c[26 + |icon| + 7..26 + |icon| + 7 + |alt|] == alt;
  }

  /**
   * `format_yes_no`: a table cell with the yes, no or unknown icon for a
   * tri-state value. (The source's error for any other value cannot arise
   * with a three-valued type.) The icon's name starts right after the
   * fixed 26-character prefix, and the alt text ends 8 characters before
   * the end of the cell.
   */
  function FormatYesNo(value: TriState): (html: string)
    ensures |html| == 41 + |YesNoIcon(value)| + |YesNoAlt(value)|
    ensures html[..26] == "<td><img src=\"static/icon/"
    ensures html[26..26 + |YesNoIcon(value)|] == YesNoIcon(value)
    ensures html[|html| - 8 - |YesNoAlt(value)|..|html| - 8] == YesNoAlt(value)
  {
    IconCellLayout(YesNoIcon(value), YesNoAlt(value));
    IconCell(YesNoIcon(value), YesNoAlt(value))
  }

  /** The cell tells the three values apart. */
  lemma FormatYesNoInjective(a: TriState, b: TriState)
    requires FormatYesNo(a) == FormatYesNo(b)
    ensures a == b
  {
    assert FormatYesNo(a)[26] == YesNoIcon(a)[0];
    assert FormatYesNo(b)[26] == YesNoIcon(b)[0];
  }

  // ---------------------------------------------------------------------
  // req_qs

  /** The parts of the formatter's state that `req_qs` reads. */
  datatype QsContext = QsContext(
    request: Request,
    /** The resource's own check name (None for the base resource). */
    checkName: Option<string>,
    /** The stored test id from the formatter's keyword arguments, if any. */
    testId: Option<string>)

  /** One `name=value` argument of the query string, before quoting. */
  datatype QueryArg =
    | Id(testId: string)
    | Uri(uri: string)
    | ReqHdr(name: string, value: string)
    | RefererHdr(referer: string)
    | CheckNameArg(checkName: string)
    | FormatArg(format: string)

  /** `"id=%s"`, `"req_hdr=%s%%3A%s"` and so on, with `quote` standing for `e_query_arg`. */
  function Render(a: QueryArg, quote: string -> string): string {
    match a
    case Id(v) => "id=" + quote(v)
    case Uri(v) => "uri=" + quote(v)
    case ReqHdr(k, v) => "req_hdr=" + quote(k) + "%3A" + quote(v)
    case RefererHdr(v) => "req_hdr=Referer%3A" + quote(v)
    case CheckNameArg(v) => "check_name=" + quote(v)
    case FormatArg(v) => "format=" + quote(v)
  }

  function RenderAll(args: seq<QueryArg>, quote: string -> string): (r: seq<string>)
    ensures |r| == |args|
    ensures forall i :: 0 <= i < |args| ==> r[i] == Render(args[i], quote)
  {
    if args == [] then [] else [Render(args[0], quote)] + RenderAll(args[1..], quote)
  }

  lemma {:induction false} RenderAllAppend(a: seq<QueryArg>, b: seq<QueryArg>, quote: string -> string)
    ensures RenderAll(a + b, quote) == RenderAll(a, quote) + RenderAll(b, quote)
  {
    var l, r := RenderAll(a + b, quote), RenderAll(a, quote) + RenderAll(b, quote);
    assert |l| == |r|;
    forall i | 0 <= i < |l| ensures l[i] == r[i] {
      assert (a + b)[i] == if i < |a| then a[i] else b[i - |a|];
    }
  }

  /** `"&".join(parts)`. */
  function JoinAmp(parts: seq<string>): string {
    if parts == [] then ""
    else if |parts| == 1 then parts[0]
    else parts[0] + "&" + JoinAmp(parts[1..])
  }

  predicate IsReferer(name: string) {
    Lower(name) == "referer"
  }

  /** The request headers copied into the query string, dropping Referer when it is replaced. */
  function HeaderArgs(headers: seq<Header>, referer: bool): (r: seq<QueryArg>)
    ensures |r| <= |headers|
    ensures forall a :: a in r ==> a.ReqHdr?
  {
    if headers == [] then []
    else
      (if referer && IsReferer(headers[0].0) then [] else [ReqHdr(headers[0].0, headers[0].1)])
        + HeaderArgs(headers[1..], referer)
  }

  /**
   * The copied arguments are exactly the request's headers, less the
   * Referer headers when those are replaced.
   */
  lemma {:induction false} HeaderArgsMembers(headers: seq<Header>, referer: bool)
    ensures forall a :: a in HeaderArgs(headers, referer) <==>
      a.ReqHdr? && (a.name, a.value) in headers && !(referer && IsReferer(a.name))
    decreases |headers|
  {
    if headers != [] {
      HeaderArgsMembers(headers[1..], referer);
      assert headers == [headers[0]] + headers[1..];
    }
  }

  /** Copying headers works element by element: their order is kept. */
  lemma {:induction false} HeaderArgsAppend(h1: seq<Header>, h2: seq<Header>, referer: bool)
    ensures HeaderArgs(h1 + h2, referer) == HeaderArgs(h1, referer) + HeaderArgs(h2, referer)
    decreases |h1|
  {
    if h1 == [] {
      assert h1 + h2 == h2;
    } else {
      var head := if referer && IsReferer(h1[0].0) then [] else [ReqHdr(h1[0].0, h1[0].1)];
      assert (h1 + h2)[0] == h1[0];
      assert (h1 + h2)[1..] == h1[1..] + h2;
      HeaderArgsAppend(h1[1..], h2, referer);
      calc {
        HeaderArgs(h1 + h2, referer);
        head + HeaderArgs(h1[1..] + h2, referer);
        head + (HeaderArgs(h1[1..], referer) + HeaderArgs(h2, referer));
        (head + HeaderArgs(h1[1..], referer)) + HeaderArgs(h2, referer);
      }
    }
  }

  /** Without Referer replacement every header is copied, in order. */
  lemma {:induction false} HeaderArgsKeepAll(headers: seq<Header>)
    ensures |HeaderArgs(headers, false)| == |headers|
    ensures forall i :: 0 <= i < |headers| ==> HeaderArgs(headers, false)[i] == ReqHdr(headers[i].0, headers[i].1)
    decreases |headers|
  {
    if headers != [] {
      HeaderArgsKeepAll(headers[1..]);
    }
  }

  /** The arguments `req_qs` produces, in order. */
  function QueryArgs(ctx: QsContext, link: string, checkName: string, resFormat: string,
                     useStored: bool, referer: bool, urljoin: (string, string) -> string): seq<QueryArg>
  {
    [FirstArg(ctx, link, useStored, urljoin)]
      + HeaderArgs(ctx.request.headers, referer)
      + (if referer then [RefererHdr(ctx.request.uri)] else [])
      + CheckNameArgs(ctx, checkName)
      + (if resFormat != "" then [FormatArg(resFormat)] else [])
  }

  /** The stored test when asked for and known, otherwise the URI (the link resolved against the resource's). */
  function FirstArg(ctx: QsContext, link: string, useStored: bool, urljoin: (string, string) -> string): (a: QueryArg)
    ensures a.Id? <==> useStored && ctx.testId.Some? && ctx.testId.value != ""
    ensures a.Id? || a.Uri?
  {
    if useStored && ctx.testId.Some? && ctx.testId.value != "" then Id(ctx.testId.value)
    else Uri(urljoin(ctx.request.uri, link))
  }

  /** An explicit check name wins over the resource's own; there is at most one. */
  function CheckNameArgs(ctx: QsContext, checkName: string): (r: seq<QueryArg>)
    ensures |r| <= 1 && forall a :: a in r ==> a.CheckNameArg?
    ensures checkName != "" ==> r == [CheckNameArg(checkName)]
    ensures checkName == "" ==> (r == [] <==> ctx.checkName.None?)
  {
    if checkName != "" then [CheckNameArg(checkName)]
    else if ctx.checkName.Some? then [CheckNameArg(ctx.checkName.value)]
    else []
  }

  /**
   * `req_qs`: builds the argument list with a loop over the request
   * headers and joins the quoted arguments with `&`. The empty string
   * stands for an absent (None) link, check name or format.
   */
  method ReqQs(ctx: QsContext, link: string, checkName: string, resFormat: string,
               useStored: bool, referer: bool,
               quote: string -> string, urljoin: (string, string) -> string)
    returns (qs: string)
    ensures qs == JoinAmp(RenderAll(QueryArgs(ctx, link, checkName, resFormat, useStored, referer, urljoin), quote))
  {
    var uri := ctx.request.uri;
    var first: seq<string>;
    if useStored && ctx.testId.Some? && ctx.testId.value != "" {
      first := [Render(Id(ctx.testId.value), quote)];
    } else {
      first := [Render(Uri(urljoin(uri, link)), quote)];
    }
    var hdrs := HeaderParts(ctx.request.headers, referer, quote);
    var ref: seq<string> := [];
    if referer {
      ref := [Render(RefererHdr(uri), quote)];
    }
    var cn: seq<string> := [];
    if checkName != "" {
      cn := [Render(CheckNameArg(checkName), quote)];
    } else if ctx.checkName.Some? {
      cn := [Render(CheckNameArg(ctx.checkName.value), quote)];
    }
    var fmt: seq<string> := [];
    if resFormat != "" {
      fmt := [Render(FormatArg(resFormat), quote)];
    }
    ghost var firstArgs := [FirstArg(ctx, link, useStored, urljoin)];
    ghost var refArgs := if referer then [RefererHdr(uri)] else [];
    ghost var cnArgs := CheckNameArgs(ctx, checkName);
    ghost var fmtArgs := if resFormat != "" then [FormatArg(resFormat)] else [];
    ghost var hArgs := HeaderArgs(ctx.request.headers, referer);
    assert first == RenderAll(firstArgs, quote);
    assert ref == RenderAll(refArgs, quote);
    assert cn == RenderAll(cnArgs, quote);
    assert fmt == RenderAll(fmtArgs, quote);
    RenderAllAppend(firstArgs, hArgs, quote);
    RenderAllAppend(firstArgs + hArgs, refArgs, quote);
    RenderAllAppend(firstArgs + hArgs + refArgs, cnArgs, quote);
    RenderAllAppend(firstArgs + hArgs + refArgs + cnArgs, fmtArgs, quote);
    qs := JoinAmp(first + hdrs + ref + cn + fmt);
  }

  /** The loop of `req_qs` over the request headers. */
  method HeaderParts(headers: seq<Header>, referer: bool, quote: string -> string) returns (out: seq<string>)
    ensures out == RenderAll(HeaderArgs(headers, referer), quote)
  {
    out := [];
    var i := 0;
    while i < |headers|
      invariant 0 <= i <= |headers|
      invariant out == RenderAll(HeaderArgs(headers[..i], referer), quote)
    {
      var k, v := headers[i].0, headers[i].1;
      HeaderPartsStep(headers, i, referer, quote);
      if !(referer && IsReferer(k)) {
        out := out + [Render(ReqHdr(k, v), quote)];
      }
      i := i + 1;
    }
    assert headers[..i] == headers;
  }

  /** One more header adds its argument, unless it is a Referer being replaced. */
  lemma HeaderPartsStep(headers: seq<Header>, i: nat, referer: bool, quote: string -> string)
    requires i < |headers|
    ensures RenderAll(HeaderArgs(headers[..i + 1], referer), quote)
         == RenderAll(HeaderArgs(headers[..i], referer), quote)
          + (if referer && IsReferer(headers[i].0) then [] else [Render(ReqHdr(headers[i].0, headers[i].1), quote)])
  {
    var one := HeaderArgs([headers[i]], referer);
    assert one == if referer && IsReferer(headers[i].0) then [] else [ReqHdr(headers[i].0, headers[i].1)] by {
      assert [headers[i]][1..] == [];
    }
    HeaderArgsAppend(headers[..i], [headers[i]], referer);
    RenderAllAppend(HeaderArgs(headers[..i], referer), one, quote);
    assert headers[..i + 1] == headers[..i] + [headers[i]];
  }

  /**
   * With Referer replacement, every copied header keeps its order and none
   * is a Referer, and exactly one Referer argument, naming the current URI,
   * follows them; without it, all headers are copied and none is added.
   */
  lemma QueryArgsReferer(ctx: QsContext, link: string, checkName: string, resFormat: string,
                         useStored: bool, referer: bool, urljoin: (string, string) -> string)
    ensures var args := QueryArgs(ctx, link, checkName, resFormat, useStored, referer, urljoin);
      var hdrs := HeaderArgs(ctx.request.headers, referer);
      && args[1..1 + |hdrs|] == hdrs
      && (forall i :: 1 <= i < 1 + |hdrs| ==> args[i].ReqHdr? && !(referer && IsReferer(args[i].name)))
      && (referer ==> args[1 + |hdrs|] == RefererHdr(ctx.request.uri))
      && (forall i :: 0 <= i < |args| && args[i].RefererHdr? ==> referer && i == 1 + |hdrs|)
  {
    var args := QueryArgs(ctx, link, checkName, resFormat, useStored, referer, urljoin);
    var hdrs := HeaderArgs(ctx.request.headers, referer);
    var tail := CheckNameArgs(ctx, checkName) + (if resFormat != "" then [FormatArg(resFormat)] else []);
    var ref := if referer then [RefererHdr(ctx.request.uri)] else [];
    assert args == [FirstArg(ctx, link, useStored, urljoin)] + hdrs + ref + tail;
    HeaderArgsMembers(ctx.request.headers, referer);
    forall i | 1 <= i < 1 + |hdrs|
      ensures args[i].ReqHdr? && !(referer && IsReferer(args[i].name))
    {
      assert args[i] == hdrs[i - 1] && hdrs[i - 1] in hdrs;
    }
    forall i | 0 <= i < |args|
      ensures args[i].RefererHdr? ==> referer && i == 1 + |hdrs|
    {
      if 1 <= i < 1 + |hdrs| {
        assert args[i] == hdrs[i - 1] && hdrs[i - 1] in hdrs;
      } else if i >= 1 + |hdrs| + |ref| {
        assert args[i] == tail[i - 1 - |hdrs| - |ref|] && args[i] in tail;
      }
    }
  }

  /**
   * The first argument is `id=` exactly when the stored test is asked for
   * and known, and otherwise `uri=`; no other argument is either; at most
   * one argument names a check.
   */
  lemma QueryArgsShape(ctx: QsContext, link: string, checkName: string, resFormat: string,
                       useStored: bool, referer: bool, urljoin: (string, string) -> string)
    ensures var args := QueryArgs(ctx, link, checkName, resFormat, useStored, referer, urljoin);
      && (args[0].Id? <==> useStored && ctx.testId.Some? && ctx.testId.value != "")
      && (forall i :: 1 <= i < |args| ==> !args[i].Id? && !args[i].Uri?)
      && (forall i, j :: 0 <= i < j < |args| && args[i].CheckNameArg? ==> !args[j].CheckNameArg?)
      && (checkName != "" ==> CheckNameArg(checkName) in args)
  {
    var args := QueryArgs(ctx, link, checkName, resFormat, useStored, referer, urljoin);
    var hdrs := HeaderArgs(ctx.request.headers, referer);
    var ref := if referer then [RefererHdr(ctx.request.uri)] else [];
    var cn := CheckNameArgs(ctx, checkName);
    var fmt := if resFormat != "" then [FormatArg(resFormat)] else [];
    assert args == [FirstArg(ctx, link, useStored, urljoin)] + hdrs + ref + cn + fmt;
    var n := 1 + |hdrs| + |ref|;
    assert forall i :: n <= i < n + |cn| ==> args[i] == cn[i - n];
    assert forall i :: n + |cn| <= i < |args| ==> args[i] == fmt[i - n - |cn|];
    assert forall i :: 1 <= i < 1 + |hdrs| ==> args[i] == hdrs[i - 1] && hdrs[i - 1] in hdrs;
    assert forall i :: 1 + |hdrs| <= i < n ==> args[i] == ref[i - 1 - |hdrs|];
    if checkName != "" {
      assert args[n] == CheckNameArg(checkName);
    }
  }

  // ---------------------------------------------------------------------
  // The problem registry and the URI cell of format_droid

  /** The URI cell: whole, or, past 50 characters, the first 48 and three fading characters. */
  datatype UriCell = Whole(uri: string) | Faded(shown: string, fade1: char, fade2: char, fade3: char)

  const UriWidth := 50

  /**
   * Truncation happens only past `UriWidth` characters; then the shown
   * text and the three fading characters spell the URI's first 51
   * characters.
   */
  function TruncateUri(uri: string): (c: UriCell)
    ensures c.Faded? <==> |uri| > UriWidth
    ensures c.Faded? ==> |c.shown| == UriWidth - 2 && c.shown + [c.fade1, c.fade2, c.fade3] == uri[..UriWidth + 1]
    ensures c.Whole? ==> c.uri == uri
  {
    if |uri| > UriWidth then
      Faded(uri[..UriWidth - 2], uri[UriWidth - 2], uri[UriWidth - 1], uri[UriWidth])
    else
      Whole(uri)
  }

  predicate IsProblem(n: Note) {
    n.kind.level == Warn || n.kind.level == Bad
  }

  /** The resource's Warn and Bad notes, in order. */
  function Problems(notes: seq<Note>): (r: seq<Note>)
    ensures |r| <= |notes|
  {
    if notes == [] then []
    else (if IsProblem(notes[0]) then [notes[0]] else []) + Problems(notes[1..])
  }

  /** The problems are exactly the Warn and Bad notes. */
  lemma {:induction false} ProblemsMembers(notes: seq<Note>)
    ensures forall n :: n in Problems(notes) <==> n in notes && IsProblem(n)
    decreases |notes|
  {
    if notes != [] {
      ProblemsMembers(notes[1..]);
      assert notes == [notes[0]] + notes[1..];
    }
  }

  predicate Distinct(s: seq<Note>) {
    forall i, j :: 0 <= i < j < |s| ==> s[i] != s[j]
  }

  /** The registry after recording each of xs in turn: a note not yet present is appended. */
  function Register(ps: seq<Note>, xs: seq<Note>): seq<Note>
    decreases |xs|
  {
    if xs == [] then ps
    else Register(if xs[0] in ps then ps else ps + [xs[0]], xs[1..])
  }

  /**
   * The registry only grows at its end, never gains a duplicate, holds
   * every recorded note, and holds nothing that was neither there nor
   * recorded.
   */
  lemma {:induction false} RegisterProperties(ps: seq<Note>, xs: seq<Note>)
    requires Distinct(ps)
    ensures var r := Register(ps, xs);
      && |ps| <= |r| && r[..|ps|] == ps
      && Distinct(r)
      && (forall x :: x in xs ==> x in r)
      && (forall y :: y in r ==> y in ps || y in xs)
    decreases |xs|
  {
    if xs != [] {
      var ps' := if xs[0] in ps then ps else ps + [xs[0]];
      assert Distinct(ps');
      RegisterProperties(ps', xs[1..]);
      var r := Register(ps', xs[1..]);
      assert r[..|ps|] == r[..|ps'|][..|ps|];
      forall x | x in xs ensures x in r {
        if x != xs[0] {
          assert x in xs[1..];
        } else {
          assert x in ps';
        }
      }
    }
  }

  lemma DistinctSnoc(ps: seq<Note>, x: Note)
    requires Distinct(ps) && x !in ps
    ensures Distinct(ps + [x])
  {
  }

  /** `list.index`: the first position of x. */
  function IndexOf(s: seq<Note>, x: Note): (i: nat)
    requires x in s
    ensures i < |s| && s[i] == x && forall j :: 0 <= j < i ==> s[j] != x
  {
    if s[0] == x then 0 else 1 + IndexOf(s[1..], x)
  }

  /** One row of the summary table, as far as it is modelled. */
  datatype DroidRow = DroidRow(
    /** The problem indices put into the row's class; None where the class placeholder is left unfilled. */
    rowClasses: Option<seq<nat>>,
    uriCell: UriCell,
    lastCell: LastCell)

  /** The problem numbers shown for a complete response, or the error text for an incomplete one. */
  datatype LastCell = ProblemNumbers(numbers: seq<nat>) | ErrorText(text: string)

  function IncompleteText(response: Response): string {
    if response.httpError.None? then "response incomplete"
    else if response.httpError.value.desc == "" then "unknown problem"
    else response.httpError.value.desc
  }

  class TableHtmlFormatter {
    /** Every problem shown so far across all rows, numbered by position from 1. */
    var problems: seq<Note>

    predicate Valid()
      reads this
    {
      Distinct(problems)
    }

    constructor ()
      ensures Valid() && problems == []
    {
      problems := [];
    }

    /**
     * `format_droid`, for the registry and the URI cell. For a complete
     * response each Warn or Bad note is recorded once in `problems`, the
     * row lists for each its index p (in the row class) and p + 1 (as
     * shown), and `problems[p]` is that note. For an incomplete one the
     * registry is untouched and the row shows the error text.
     */
    method FormatDroid(resource: HttpResource) returns (row: DroidRow)
      requires Valid()
      modifies this
      ensures Valid()
      ensures row.uriCell == TruncateUri(resource.request.uri)
      ensures resource.response.complete ==>
        var found := Problems(resource.notes);
        && problems == Register(old(problems), found)
        && row.rowClasses.Some? && |row.rowClasses.value| == |found|
        && (forall i :: 0 <= i < |found| ==>
              row.rowClasses.value[i] < |problems| && problems[row.rowClasses.value[i]] == found[i])
        && row.lastCell == ProblemNumbers(Shown(row.rowClasses.value))
      ensures !resource.response.complete ==>
        && problems == old(problems)
        && row == DroidRow(None, TruncateUri(resource.request.uri), ErrorText(IncompleteText(resource.response)))
    {
      var uriCell := TruncateUri(resource.request.uri);
      if !resource.response.complete {
        return DroidRow(None, uriCell, ErrorText(IncompleteText(resource.response)));
      }
      var prEnum := RecordProblems(Problems(resource.notes));
      row := DroidRow(Some(prEnum), uriCell, ProblemNumbers(Shown(prEnum)));
    }

    /**
     * The loop of `format_droid` over a resource's problems: each is
     * recorded unless already present, and its position is collected.
     */
    method RecordProblems(found: seq<Note>) returns (prEnum: seq<nat>)
      requires Valid()
      modifies this
      ensures Valid()
      ensures problems == Register(old(problems), found)
      ensures |prEnum| == |found|
      ensures forall i :: 0 <= i < |found| ==> prEnum[i] < |problems| && problems[prEnum[i]] == found[i]
    {
      prEnum := [];
      var i := 0;
      while i < |found|
        invariant 0 <= i <= |found|
        invariant Valid()
        invariant problems == Register(old(problems), found[..i])
        invariant |prEnum| == i
        invariant forall k :: 0 <= k < i ==> prEnum[k] < |problems| && problems[prEnum[k]] == found[k]
      {
        var problem := found[i];
        RegisterStep(old(problems), found, i);
        ghost var before := problems;
        if problem !in problems {
          problems := problems + [problem];
          DistinctSnoc(before, problem);
        }
        assert forall k :: 0 <= k < |before| ==> problems[k] == before[k];
        prEnum := prEnum + [IndexOf(problems, problem)];
        i := i + 1;
      }
      assert found[..i] == found;
    }
  }

  /** The problem numbers shown: one more than each registry position. */
  function Shown(positions: seq<nat>): (r: seq<nat>)
    ensures |r| == |positions| && forall i :: 0 <= i < |r| ==> r[i] == positions[i] + 1
  {
    seq(|positions|, i requires 0 <= i < |positions| => positions[i] + 1)
  }

  /** Recording one more note extends the registry of the notes before it. */
  lemma RegisterStep(ps: seq<Note>, xs: seq<Note>, i: nat)
    requires i < |xs|
    ensures Register(ps, xs[..i + 1]) == var r := Register(ps, xs[..i]); if xs[i] in r then r else r + [xs[i]]
  {
    RegisterSnoc(ps, xs[..i], xs[i]);
    assert xs[..i + 1] == xs[..i] + [xs[i]];
  }

  lemma {:induction false} RegisterSnoc(ps: seq<Note>, xs: seq<Note>, x: Note)
    ensures Register(ps, xs + [x]) == var r := Register(ps, xs); if x in r then r else r + [x]
    decreases |xs|
  {
    if xs == [] {
      assert xs + [x] == [x];
      assert [x][1..] == [];
    } else {
      assert (xs + [x])[1..] == xs[1..] + [x];
      RegisterSnoc(if xs[0] in ps then ps else ps + [xs[0]], xs[1..], x);
    }
  }

  // ---------------------------------------------------------------------
  // format_category

  /**
   * The active checks, named after their classes (`LmValidateCheck` is the
   * `LmValidate` check).
   */
  datatype CheckKind = ConnegCheck | RangeRequest | ETagValidate | LmValidateCheck

  /** The checks whose responses are linked from a category's heading. */
  function NoteResponses(category: Category): seq<CheckKind> {
    match category
    case Conneg => [ConnegCheck]
    case Validation => [ETagValidate, LmValidateCheck]
    case Range => [RangeRequest]
    case _ => []
  }

  /** What the report keeps of a sub-request: whether it was fetched and its own notes. */
  datatype Subrequest = Subrequest(fetchStarted: bool, notes: seq<Note>)

  datatype SubreqLink = SubreqLink(check: CheckKind, warnings: string)

  /** The category section: a bare newline when it has no notes. */
  datatype CategoryBlock = NewlineOnly | Block(category: Category, links: seq<SubreqLink>, listed: seq<Note>)

  /** The notes of one category, in their order. */
  function InCategory(notes: seq<Note>, category: Category): (r: seq<Note>)
    ensures |r| <= |notes|
  {
    if notes == [] then []
    else (if notes[0].kind.category == category then [notes[0]] else []) + InCategory(notes[1..], category)
  }

  /** The selected notes are exactly the notes of the category. */
  lemma {:induction false} InCategoryMembers(notes: seq<Note>, category: Category)
    ensures forall n :: n in InCategory(notes, category) <==> n in notes && n.kind.category == category
    decreases |notes|
  {
    if notes != [] {
      InCategoryMembers(notes[1..], category);
      assert notes == [notes[0]] + notes[1..];
    }
  }

  /** Selecting a category works note by note: the notes keep their order. */
  lemma {:induction false} InCategoryAppend(a: seq<Note>, b: seq<Note>, category: Category)
    ensures InCategory(a + b, category) == InCategory(a, category) + InCategory(b, category)
    decreases |a|
  {
    if a == [] {
      assert a + b == b;
    } else {
      var head := if a[0].kind.category == category then [a[0]] else [];
      assert (a + b)[0] == a[0];
      assert (a + b)[1..] == a[1..] + b;
      InCategoryAppend(a[1..], b, category);
      calc {
        InCategory(a + b, category);
        head + InCategory(a[1..] + b, category);
        head + (InCategory(a[1..], category) + InCategory(b, category));
        (head + InCategory(a[1..], category)) + InCategory(b, category);
      }
    }
  }

  /** How many of the notes are Bad: what a sub-request's heading link reports as warnings. */
  function BadCount(notes: seq<Note>): (n: nat)
    ensures n <= |notes|
  {
    if notes == [] then 0 else (if notes[0].kind.level == Bad then 1 else 0) + BadCount(notes[1..])
  }

  lemma {:induction false} BadCountAppend(a: seq<Note>, b: seq<Note>)
    ensures BadCount(a + b) == BadCount(a) + BadCount(b)
    decreases |a|
  {
    if a == [] {
      assert a + b == b;
    } else {
      assert (a + b)[1..] == a[1..] + b;
      BadCountAppend(a[1..], b);
    }
  }

  /** The count is the number of positions holding a Bad note, as `len(smsgs)` is. */
  lemma {:induction false} BadCountIsCount(notes: seq<Note>)
    ensures BadCount(notes) == |set i | 0 <= i < |notes| && notes[i].kind.level == Bad|
    decreases |notes|
  {
    if notes != [] {
      var k := |notes| - 1;
      var front := notes[..k];
      BadCountIsCount(front);
      BadCountAppend(front, [notes[k]]);
      assert front + [notes[k]] == notes;
      assert [notes[k]][1..] == [];
      var s := set i | 0 <= i < |front| && front[i].kind.level == Bad;
      var t := set i | 0 <= i < |notes| && notes[i].kind.level == Bad;
      if notes[k].kind.level == Bad {
        assert t == s + {k};
      } else {
        assert t == s;
      }
    }
  }

  /** No warning count is shown exactly when the sub-request has no Bad note. */
  lemma {:induction false} NoWarningsIff(notes: seq<Note>)
    ensures WarningSuffix(BadCount(notes)) == "" <==> forall n :: n in notes ==> n.kind.level != Bad
    decreases |notes|
  {
    if notes != [] {
      NoWarningsIff(notes[1..]);
      assert notes == [notes[0]] + notes[1..];
    }
  }

  /** `" - %i warning\n"` for one Bad note, `" - %i warnings\n"` for more, nothing for none. */
  function WarningSuffix(n: nat): (r: string)
    ensures r == "" <==> n == 0
    ensures n > 0 ==> r == " - " + Digits(n) + (if n == 1 then " warning\n" else " warnings\n")
  {
    if n == 1 then " - 1 warning\n"
    else if n > 0 then " - " + Digits(n) + " warnings\n"
    else ""
  }

  /** The heading links: one per linked check that was fetched, with its warning count. */
  function Links(category: Category, isHttpResource: bool, subreqs: map<CheckKind, Subrequest>,
                 checks: seq<CheckKind>): seq<SubreqLink>
    requires isHttpResource ==> forall k :: k in checks ==> k in subreqs
  {
    if !isHttpResource || checks == [] then []
    else
      (if subreqs[checks[0]].fetchStarted
       then [SubreqLink(checks[0], WarningSuffix(BadCount(subreqs[checks[0]].notes)))] else [])
        + Links(category, isHttpResource, subreqs, checks[1..])
  }

  /** Links are made check by check: their order is the order of the checks. */
  lemma {:induction false} LinksAppend(category: Category, subreqs: map<CheckKind, Subrequest>,
                                       a: seq<CheckKind>, b: seq<CheckKind>)
    requires forall k :: k in a + b ==> k in subreqs
    ensures Links(category, true, subreqs, a + b)
         == Links(category, true, subreqs, a) + Links(category, true, subreqs, b)
    decreases |a|
  {
    if a == [] {
      assert a + b == b;
    } else {
      assert (a + b)[0] == a[0];
      assert (a + b)[1..] == a[1..] + b;
      LinksAppend(category, subreqs, a[1..], b);
    }
  }

  /**
   * There is a link for a check, with that check's Bad-note count, exactly
   * when the check is one of the category's and its sub-request was fetched.
   */
  lemma {:induction false} LinksMembers(category: Category, subreqs: map<CheckKind, Subrequest>,
                                        checks: seq<CheckKind>)
    requires forall k :: k in checks ==> k in subreqs
    ensures forall k, w :: SubreqLink(k, w) in Links(category, true, subreqs, checks) <==>
      k in checks && subreqs[k].fetchStarted && w == WarningSuffix(BadCount(subreqs[k].notes))
    decreases |checks|
  {
    if checks != [] {
      LinksMembers(category, subreqs, checks[1..]);
      assert checks == [checks[0]] + checks[1..];
    }
  }

  /**
   * `format_category`: nothing but a newline when no note has the
   * category; otherwise the category's notes in their order, and, for an
   * analysed resource, a link to each of the category's checks that was
   * fetched, with its count of Bad notes.
   */
  method FormatCategory(category: Category, notes: seq<Note>, isHttpResource: bool,
                        subreqs: map<CheckKind, Subrequest>)
    returns (block: CategoryBlock)
    requires isHttpResource ==> forall k :: k in NoteResponses(category) ==> k in subreqs
    ensures InCategory(notes, category) == [] ==> block == NewlineOnly
    ensures InCategory(notes, category) != [] ==>
      block == Block(category, Links(category, isHttpResource, subreqs, NoteResponses(category)),
                     InCategory(notes, category))
  {
    var selected := SelectCategory(notes, category);
    if selected == [] {
      return NewlineOnly;
    }
    var links: seq<SubreqLink> := [];
    if isHttpResource {
      links := SubreqLinks(category, subreqs, NoteResponses(category));
    }
    block := Block(category, links, selected);
  }

  /** The list comprehension at the head of `format_category`. */
  method SelectCategory(notes: seq<Note>, category: Category) returns (selected: seq<Note>)
    ensures selected == InCategory(notes, category)
  {
    selected := [];
    var i := 0;
    while i < |notes|
      invariant 0 <= i <= |notes|
      invariant selected == InCategory(notes[..i], category)
    {
      InCategoryAppend(notes[..i], [notes[i]], category);
      assert notes[..i + 1] == notes[..i] + [notes[i]];
      if notes[i].kind.category == category {
        selected := selected + [notes[i]];
      }
      i := i + 1;
    }
    assert notes[..i] == notes;
  }

  /** The loop of `format_category` over the category's checks. */
  method SubreqLinks(category: Category, subreqs: map<CheckKind, Subrequest>, checks: seq<CheckKind>)
    returns (links: seq<SubreqLink>)
    requires forall k :: k in checks ==> k in subreqs
    ensures links == Links(category, true, subreqs, checks)
  {
    links := [];
    var j := 0;
    while j < |checks|
      invariant 0 <= j <= |checks|
      invariant links + Links(category, true, subreqs, checks[j..]) == Links(category, true, subreqs, checks)
    {
      var sub := subreqs[checks[j]];
      assert checks[j..][1..] == checks[j + 1..];
      if sub.fetchStarted {
        links := links + [SubreqLink(checks[j], WarningSuffix(BadCount(sub.notes)))];
      }
      j := j + 1;
    }
  }
}
