/** The comparison engine: it classifies the two fetch outcomes and turns
    the differences between the two responses into a flat, ordered list of
    inserted and deleted fragments. */
module Comparator {
  import opened Wrappers
  import opened Strings
  import opened Filtering
  import opened Collaborators

  datatype DiffType = Delete | Insert

  /** One fragment of the result: text present only in B (Insert) or only
      in A (Delete). */
  datatype Diff = Diff(text: string, kind: DiffType)

  /** How a Go call of the comparator ends: it returns fragments with a nil
      error, returns a nil slice with an error, or panics. */
  datatype Outcome = Returned(diffs: seq<Diff>) | Failed(err: string) | Panicked

  // ---------------------------------------------------------------- errors

  /** trimErrorHost: the message from its last `:` on.  A message without
      `:` makes the Go slice expression panic (index -1); that is `None`. */
  function TrimErrorHost(msg: string): (r: Option<string>)
    ensures r.Some? <==> ':' in msg
    ensures r.Some? ==> |r.value| <= |msg| && r.value == msg[|msg| - |r.value|..]
    ensures r.Some? ==> |r.value| > 0 && r.value[0] == ':' && ':' !in r.value[1..]
  {
    var i := LastIndex(msg, ':');
    assert 0 <= i ==> msg[i..][1..] == msg[i + 1..];
    Slice(msg, i, |msg|)
  }

  lemma TrimErrorHostExample()
    ensures TrimErrorHost("dial tcp 127.0.0.1:80: connection refused") == Some(": connection refused")
  {
    var msg := "dial tcp 127.0.0.1:80: connection refused";
    assert msg[21] == ':';
    assert ':' !in msg[22..] by {
      assert msg[22..] == " connection refused";
    }
    assert msg[21..] == ": connection refused";
  }

  // ------------------------------------------------------ rendered JSON diff

  /** The fragment one rendered diff line stands for, if any. */
  function LineDiff(line: string): Option<Diff> {
    if HasPrefix(line, "+") then Some(Diff(line[1..], Insert))
    else if HasPrefix(line, "-") then Some(Diff(line[1..], Delete))
    else None
  }

  /** The fragments of the rendered diff lines, in line order. */
  function LineDiffs(lines: seq<string>): (ds: seq<Diff>)
    ensures |ds| <= |lines|
  {
    FilterMap(LineDiff, lines)
  }

  /** getDiffsFromStrings */
  method GetDiffsFromStrings(lines: seq<string>) returns (diffs: seq<Diff>)
    ensures diffs == LineDiffs(lines)
  {
    diffs := [];
    for i := 0 to |lines|
      invariant diffs == LineDiffs(lines[..i])
    {
      assert lines[..i + 1][..i] == lines[..i];
      var line := lines[i];
      if HasPrefix(line, "+") {
        ReplaceOnceAtPrefix(line, '+');
        line := ReplaceOnce(line, '+', "");
        diffs := diffs + [Diff(line, Insert)];
      } else if HasPrefix(line, "-") {
        ReplaceOnceAtPrefix(line, '-');
        line := ReplaceOnce(line, '-', "");
        diffs := diffs + [Diff(line, Delete)];
      } else {
        continue;
      }
    }
    assert lines[..|lines|] == lines;
  }

  /** A line gives a fragment exactly when it starts with `+` or `-`; the
      fragment is an Insert exactly when that character is `+`, and its
      text is the rest of the line. */
  lemma LineDiffOfLine(line: string)
    ensures LineDiff(line).Some? <==> |line| > 0 && line[0] in "+-"
    ensures LineDiff(line).Some? ==>
      && LineDiff(line).value.text == line[1..]
      && (LineDiff(line).value.kind == Insert <==> line[0] == '+')
  {
    if |line| > 0 {
      assert line[..1] == [line[0]];
    }
  }

  /** Each fragment comes from a line that starts with `+` or `-`, in line
      order; it is an Insert exactly when its line starts with `+`, and its
      text is the line without that first character; every such line gives
      a fragment and no other line does. */
  lemma LineDiffsFragments(lines: seq<string>)
    ensures var ix, ds := KeptIndices(LineDiff, lines), LineDiffs(lines);
      && |ix| == |ds|
      && (forall k, l :: 0 <= k < l < |ix| ==> ix[k] < ix[l])
      && (forall k :: 0 <= k < |ix| ==>
            && ix[k] < |lines|
            && |lines[ix[k]]| > 0
            && lines[ix[k]][0] in "+-"
            && ds[k].text == lines[ix[k]][1..]
            && (ds[k].kind == Insert <==> lines[ix[k]][0] == '+'))
      && (forall i :: 0 <= i < |lines| && |lines[i]| > 0 && lines[i][0] in "+-" ==> i in ix)
  {
    var ix, ds := KeptIndices(LineDiff, lines), LineDiffs(lines);
    forall i | 0 <= i < |lines| && |lines[i]| > 0 && lines[i][0] in "+-"
      ensures i in ix
    {
      LineDiffOfLine(lines[i]);
    }
    forall k | 0 <= k < |ix|
      ensures |lines[ix[k]]| > 0 && lines[ix[k]][0] in "+-"
      ensures ds[k].text == lines[ix[k]][1..]
      ensures ds[k].kind == Insert <==> lines[ix[k]][0] == '+'
    {
      LineDiffOfLine(lines[ix[k]]);
    }
  }

  /** Lines that do not start with `+` or `-` (the empty line among them)
      produce nothing. */
  lemma LineDiffsDropsOthers(lines: seq<string>)
    requires forall i :: 0 <= i < |lines| ==> |lines[i]| == 0 || lines[i][0] !in "+-"
    ensures LineDiffs(lines) == []
  {
    forall i | 0 <= i < |lines|
      ensures LineDiff(lines[i]).None?
    {
      LineDiffOfLine(lines[i]);
    }
    FilterMapNone(LineDiff, lines);
  }

  /** Parsing distributes over concatenation of line lists. */
  lemma LineDiffsConcat(a: seq<string>, b: seq<string>)
    ensures LineDiffs(a + b) == LineDiffs(a) + LineDiffs(b)
  {
    FilterMapConcat(LineDiff, a, b);
  }

  // ------------------------------------------------------------- text diffs

  /** The fragment one edit stands for, if any. */
  function EditDiff(e: Edit): Option<Diff> {
    match e.kind
    case DiffInsert => Some(Diff(e.text, Insert))
    case DiffDelete => Some(Diff(e.text, Delete))
    case DiffEqual => None
  }

  /** The fragments of an edit script, in edit order. */
  function EditDiffs(edits: seq<Edit>): (ds: seq<Diff>)
    ensures |ds| <= |edits|
  {
    FilterMap(EditDiff, edits)
  }

  /** What compareStrings returns for two texts. */
  function TextDiffs<Doc, Delta>(lib: Libraries<Doc, Delta>, a: string, b: string): seq<Diff> {
    EditDiffs(lib.cleanupSemantic(lib.diffMain(a, b, true)))
  }

  /** compareStrings */
  method CompareStrings<Doc, Delta>(lib: Libraries<Doc, Delta>, aString: string, bString: string)
    returns (result: seq<Diff>)
    ensures result == TextDiffs(lib, aString, bString)
  {
    result := [];
    var diffs := lib.diffMain(aString, bString, true);
    diffs := lib.cleanupSemantic(diffs);
    for i := 0 to |diffs|
      invariant result == EditDiffs(diffs[..i])
    {
      assert diffs[..i + 1][..i] == diffs[..i];
      var element := diffs[i];
      if element.kind == DiffInsert {
        result := result + [Diff(element.text, Insert)];
      } else if element.kind == DiffDelete {
        result := result + [Diff(element.text, Delete)];
      }
    }
    assert diffs[..|diffs|] == diffs;
  }

  /** Insert and Delete edits are kept in order with their text unchanged,
      Insert edits becoming Insert fragments and Delete edits Delete
      fragments; Equal edits are dropped. */
  lemma EditDiffsFragments(edits: seq<Edit>)
    ensures var ix := KeptIndices(EditDiff, edits);
      && |ix| == |EditDiffs(edits)|
      && (forall k, l :: 0 <= k < l < |ix| ==> ix[k] < ix[l])
      && (forall k :: 0 <= k < |ix| ==>
            && ix[k] < |edits|
            && edits[ix[k]].kind != DiffEqual
            && EditDiffs(edits)[k].text == edits[ix[k]].text
            && (EditDiffs(edits)[k].kind == Insert <==> edits[ix[k]].kind == DiffInsert))
      && (forall i :: 0 <= i < |edits| && edits[i].kind != DiffEqual ==> i in ix)
  {
    var ix := KeptIndices(EditDiff, edits);
    forall i | 0 <= i < |edits| && edits[i].kind != DiffEqual
      ensures i in ix
    {
      assert EditDiff(edits[i]).Some?;
    }
    forall k | 0 <= k < |ix|
      ensures edits[ix[k]].kind != DiffEqual
    {
      assert EditDiff(edits[ix[k]]).Some?;
    }
  }

  /** An edit script with no Insert or Delete step gives no fragment. */
  lemma EditDiffsOfUnchanged(edits: seq<Edit>)
    requires forall i :: 0 <= i < |edits| ==> edits[i].kind == DiffEqual
    ensures EditDiffs(edits) == []
  {
    FilterMapNone(EditDiff, edits);
  }

  // ------------------------------------------------------------ HTML path

  /** The fragments of every selector in turn, each selector's own in
      edit order. */
  function SelectorDiffs<Doc, Delta>(lib: Libraries<Doc, Delta>, aDoc: Doc, bDoc: Doc, selectors: seq<string>): seq<Diff> {
    if selectors == [] then []
    else
      var n := |selectors| - 1;
      SelectorDiffs(lib, aDoc, bDoc, selectors[..n]) +
      TextDiffs(lib, lib.findText(aDoc, selectors[n]), lib.findText(bDoc, selectors[n]))
  }

  /** What compareHTMLs returns. */
  function HtmlDiffs<Doc, Delta>(lib: Libraries<Doc, Delta>, a: Response, b: Response, selectors: seq<string>): Outcome {
    match lib.parseHtml(a)
    case Failure(e) => Failed(e)
    case Success(aDoc) =>
      match lib.parseHtml(b)
      case Failure(e) => Failed(e)
      case Success(bDoc) => Returned(SelectorDiffs(lib, aDoc, bDoc, selectors))
  }

  /** compareHTMLs */
  method CompareHTMLs<Doc, Delta>(lib: Libraries<Doc, Delta>, aResp: Response, bResp: Response, compareElements: seq<string>)
    returns (r: Outcome)
    ensures r == HtmlDiffs(lib, aResp, bResp, compareElements)
  {
    var result := [];
    var aDoc := lib.parseHtml(aResp);
    if aDoc.Failure? {
      return Failed(aDoc.error);
    }
    var bDoc := lib.parseHtml(bResp);
    if bDoc.Failure? {
      return Failed(bDoc.error);
    }
    for i := 0 to |compareElements|
      invariant result == SelectorDiffs(lib, aDoc.value, bDoc.value, compareElements[..i])
    {
      assert compareElements[..i + 1][..i] == compareElements[..i];
      var element := compareElements[i];
      var aText := lib.findText(aDoc.value, element);
      var bText := lib.findText(bDoc.value, element);
      var d := CompareStrings(lib, aText, bText);
      result := result + d;
    }
    assert compareElements[..|compareElements|] == compareElements;
    return Returned(result);
  }

  /** The selectors' fragments are concatenated in selector order. */
  lemma {:induction false} SelectorDiffsConcat<Doc, Delta>(lib: Libraries<Doc, Delta>, aDoc: Doc, bDoc: Doc, s1: seq<string>, s2: seq<string>)
    ensures SelectorDiffs(lib, aDoc, bDoc, s1 + s2) == SelectorDiffs(lib, aDoc, bDoc, s1) + SelectorDiffs(lib, aDoc, bDoc, s2)
    decreases |s2|
  {
    if s2 == [] {
      assert s1 + s2 == s1;
    } else {
      var n := |s2| - 1;
      assert (s1 + s2)[..|s1 + s2| - 1] == s1 + s2[..n];
      assert (s1 + s2)[|s1 + s2| - 1] == s2[n];
      SelectorDiffsConcat(lib, aDoc, bDoc, s1, s2[..n]);
    }
  }

  /** On the HTML path a failure never comes with part of a result: it is
      the same whatever the selectors are.  When both documents parse, the
      result for a concatenated selector list is the concatenation of the
      results, a single selector gives exactly the text diff of what it
      matches on each side, and an empty selector list gives nothing. */
  lemma HtmlDiffsBySelector<Doc, Delta>(lib: Libraries<Doc, Delta>, a: Response, b: Response, s1: seq<string>, s2: seq<string>)
    ensures HtmlDiffs(lib, a, b, s1).Failed? ==> HtmlDiffs(lib, a, b, s2) == HtmlDiffs(lib, a, b, s1)
    ensures HtmlDiffs(lib, a, b, s1).Returned? ==>
      && HtmlDiffs(lib, a, b, s2).Returned?
      && HtmlDiffs(lib, a, b, s1 + s2).diffs == HtmlDiffs(lib, a, b, s1).diffs + HtmlDiffs(lib, a, b, s2).diffs
    ensures |s1| == 1 && HtmlDiffs(lib, a, b, s1).Returned? ==>
      HtmlDiffs(lib, a, b, s1).diffs ==
        TextDiffs(lib, lib.findText(lib.parseHtml(a).value, s1[0]), lib.findText(lib.parseHtml(b).value, s1[0]))
    ensures s1 == [] && HtmlDiffs(lib, a, b, s1).Returned? ==> HtmlDiffs(lib, a, b, s1).diffs == []
    ensures !HtmlDiffs(lib, a, b, s1).Panicked?
  {
    if lib.parseHtml(a).Success? && lib.parseHtml(b).Success? {
      var aDoc, bDoc := lib.parseHtml(a).value, lib.parseHtml(b).value;
      SelectorDiffsConcat(lib, aDoc, bDoc, s1, s2);
      if |s1| == 1 {
        assert s1[..0] == [];
      }
    }
  }

  /** If the text differ reports no edit between a text and itself, then
      comparing a response with itself on the HTML path finds nothing. */
  lemma {:induction false} HtmlDiffsOfSameResponse<Doc, Delta>(lib: Libraries<Doc, Delta>, a: Response, selectors: seq<string>)
    requires forall s: string, i: int :: 0 <= i < |lib.cleanupSemantic(lib.diffMain(s, s, true))| ==>
      lib.cleanupSemantic(lib.diffMain(s, s, true))[i].kind == DiffEqual
    ensures HtmlDiffs(lib, a, a, selectors).Returned? ==> HtmlDiffs(lib, a, a, selectors).diffs == []
  {
    if lib.parseHtml(a).Success? {
      SelectorDiffsOfSameDocument(lib, lib.parseHtml(a).value, selectors);
    }
  }

  lemma {:induction false} SelectorDiffsOfSameDocument<Doc, Delta>(lib: Libraries<Doc, Delta>, doc: Doc, selectors: seq<string>)
    requires forall s: string, i: int :: 0 <= i < |lib.cleanupSemantic(lib.diffMain(s, s, true))| ==>
      lib.cleanupSemantic(lib.diffMain(s, s, true))[i].kind == DiffEqual
    ensures SelectorDiffs(lib, doc, doc, selectors) == []
    decreases |selectors|
  {
    if selectors != [] {
      var n := |selectors| - 1;
      SelectorDiffsOfSameDocument(lib, doc, selectors[..n]);
      var t := lib.findText(doc, selectors[n]);
      EditDiffsOfUnchanged(lib.cleanupSemantic(lib.diffMain(t, t, true)));
    }
  }

  // ------------------------------------------------------------ JSON path

  /** What compareJSONs returns: A's body is read, then B's, then the two
      are diffed and the diff rendered; the first step that fails decides
      the error.  The rendering is split into lines and parsed. */
  function JsonDiffs<Doc, Delta>(lib: Libraries<Doc, Delta>, a: Response, b: Response): Outcome {
    match a.body
    case Failure(e) => Failed(e)
    case Success(aBody) =>
      match b.body
      case Failure(e) => Failed(e)
      case Success(bBody) =>
        match lib.jsonCompare(aBody, bBody)
        case Failure(e) => Failed(e)
        case Success(delta) =>
          match lib.formatAscii(aBody, delta)
          case Failure(e) => Failed(e)
          case Success(diffString) => Returned(LineDiffs(Split(diffString, '\n')))
  }

  /** compareJSONs */
  method CompareJSONs<Doc, Delta>(lib: Libraries<Doc, Delta>, aResp: Response, bResp: Response)
    returns (r: Outcome)
    ensures r == JsonDiffs(lib, aResp, bResp)
  {
    var aBody := aResp.body;
    if aBody.Failure? {
      return Failed(aBody.error);
    }
    var bBody := bResp.body;
    if bBody.Failure? {
      return Failed(bBody.error);
    }
    var diff := lib.jsonCompare(aBody.value, bBody.value);
    if diff.Failure? {
      return Failed(diff.error);
    }
    var diffString := lib.formatAscii(aBody.value, diff.value);
    if diffString.Failure? {
      return Failed(diffString.error);
    }
    var lines := Split(diffString.value, '\n');
    var diffs := GetDiffsFromStrings(lines);
    return Returned(diffs);
  }

  /** On the JSON path the fragments are the `+` and `-` lines of the
      rendered diff: none holds a line break, and there are at most as many
      as the rendering has lines.  The path never panics, and a failed read
      of A's body is reported before anything about B. */
  lemma JsonDiffsFragments<Doc, Delta>(lib: Libraries<Doc, Delta>, a: Response, b: Response)
    ensures !JsonDiffs(lib, a, b).Panicked?
    ensures a.body.Failure? ==> JsonDiffs(lib, a, b) == Failed(a.body.error)
    ensures JsonDiffs(lib, a, b).Returned? ==>
      var diffString := lib.formatAscii(a.body.value, lib.jsonCompare(a.body.value, b.body.value).value).value;
      && |JsonDiffs(lib, a, b).diffs| <= |Split(diffString, '\n')|
      && forall k :: 0 <= k < |JsonDiffs(lib, a, b).diffs| ==> '\n' !in JsonDiffs(lib, a, b).diffs[k].text
  {
    var r := JsonDiffs(lib, a, b);
    if r.Returned? {
      var diffString := lib.formatAscii(a.body.value, lib.jsonCompare(a.body.value, b.body.value).value).value;
      var lines := Split(diffString, '\n');
      LineDiffsFragments(lines);
      var ix := KeptIndices(LineDiff, lines);
      forall k | 0 <= k < |r.diffs|
        ensures '\n' !in r.diffs[k].text
      {
        var line := lines[ix[k]];
        assert '\n' !in line;
        assert r.diffs[k].text == line[1..];
      }
    }
  }

  // ----------------------------------------------------------- dispatch

  /** Compare: the two fetch outcomes decide the strategy, then whether a
      selector list was given at all (`None` is Go's nil slice). */
  method Compare<Doc, Delta>(lib: Libraries<Doc, Delta>, a: Fetch, b: Fetch, compareElements: Option<seq<string>>)
    returns (r: Outcome)
    ensures a.Err? && b.Ok? ==>
      r == (match TrimErrorHost(a.msg)
            case Some(t) => Returned([Diff(t, Delete), Diff(b.resp.status, Insert)])
            case None => Panicked)
    ensures a.Ok? && b.Err? ==>
      r == (match TrimErrorHost(b.msg)
            case Some(t) => Returned([Diff(a.resp.status, Delete), Diff(t, Insert)])
            case None => Panicked)
    ensures a.Err? && b.Err? ==>
      r == (if TrimErrorHost(a.msg).Some? && TrimErrorHost(b.msg).Some?
            then Returned(TextDiffs(lib, TrimErrorHost(a.msg).value, TrimErrorHost(b.msg).value))
            else Panicked)
    ensures a.Ok? && b.Ok? && compareElements.None? ==> r == JsonDiffs(lib, a.resp, b.resp)
    ensures a.Ok? && b.Ok? && compareElements.Some? ==> r == HtmlDiffs(lib, a.resp, b.resp, compareElements.value)
    ensures a.Err? || b.Err? ==> !r.Failed?
    ensures r.Panicked? <==> (a.Err? && ':' !in a.msg) || (b.Err? && ':' !in b.msg)
  {
    if a.Err? && b.Ok? {
      var err := TrimErrorHost(a.msg);
      if err.None? {
        return Panicked;
      }
      return Returned([Diff(err.value, Delete), Diff(b.resp.status, Insert)]);
    }
    if a.Ok? && b.Err? {
      var err := TrimErrorHost(b.msg);
      if err.None? {
        return Panicked;
      }
      return Returned([Diff(a.resp.status, Delete), Diff(err.value, Insert)]);
    }
    if a.Err? && b.Err? {
      var aError := TrimErrorHost(a.msg);
      if aError.None? {
        return Panicked;
      }
      var bError := TrimErrorHost(b.msg);
      if bError.None? {
        return Panicked;
      }
      var diffs := CompareStrings(lib, aError.value, bError.value);
      return Returned(diffs);
    }
    if compareElements.None? {
      r := CompareJSONs(lib, a.resp, b.resp);
      JsonDiffsFragments(lib, a.resp, b.resp);
      return;
    }
    r := CompareHTMLs(lib, a.resp, b.resp, compareElements.value);
    HtmlDiffsBySelector(lib, a.resp, b.resp, compareElements.value, []);
  }

  /** A: connection refused; B: 200 OK. */
  method OneSideDown<Doc, Delta>(lib: Libraries<Doc, Delta>, bBody: Result<seq<byte>, string>)
    returns (r: Outcome)
    ensures r == Returned([Diff(": connection refused", Delete), Diff("200 OK", Insert)])
  {
    TrimErrorHostExample();
    r := Compare(lib, Err("dial tcp 127.0.0.1:80: connection refused"), Ok(Response("200 OK", bBody)), None);
  }
}
