/** The LLVM remark normaliser (src/parser/llvmParser.ts): the YAML tags it
    registers, and the loop that turns the documents the YAML loader produced
    into `OptimizationRemark` records. Reading the file and YAML loading are
    not modelled: the loader's output is the input. */
module LLVMParser {
  import opened Wrappers
  import opened Remarks

  // ---------------------------------------------------------------------
  // Loader output
  // ---------------------------------------------------------------------

  /** A `DebugLoc` mapping. */
  datatype DebugLoc = DebugLoc(File: string, Line: int, Column: int)

  /** One element of an `Args` list as the loader gives it. */
  datatype Arg =
    | Text(text: string)
      /** Any other non-null value (a mapping, number, boolean or list).
          `String` is its `String` property when that is a string, and
          `serialised` stands for the text `JSON.stringify` gives for it. */
    | Value(String: Option<string>, serialised: string)
    | Null

  /** The `Args` property of a document. */
  datatype ArgsValue =
      /** Absent, or any falsy value: `remark.Args || []` gives `[]`. */
    | Missing
    | List(items: seq<Arg>)
      /** A truthy value that is not an array: it has no `map` method. */
    | NotAList

  /** A loaded mapping document, restricted to the properties the parser reads.
      A string property is `None` when absent. */
  datatype Document = Document(
    Pass: Option<string>,
    Function: Option<string>,
    DebugLoc: Option<DebugLoc>,
    Args: ArgsValue,
    RemarkType: Option<string>)

  /** The loader's result: one entry per YAML document; `None` is a document
      that is not a mapping (null, a scalar or a list). */
  type Loaded = seq<Option<Document>>

  /** The JavaScript `TypeError`s the conversion can raise. */
  datatype ParseError =
      /** `args.map` on a truthy `Args` that is not an array. */
    | ArgsNotAList
      /** `arg.String` on a `null` element of `Args`. */
    | NullArgument

  /** JavaScript truthiness of an optional string property. */
  predicate Truthy(s: Option<string>)
  {
    s.Some? && s.value != ""
  }

  // ---------------------------------------------------------------------
  // Tag registry (`customTypes`)
  // ---------------------------------------------------------------------

  /** The three remark kinds registered as YAML tags. */
  datatype Tag = Missed | Passed | Analysis
  {
    function Name(): string
    {
      match this
      case Missed => "Missed"
      case Passed => "Passed"
      case Analysis => "Analysis"
    }
  }

  /** The tags in the order they are registered. */
  const RegisteredTags: seq<Tag> := [Missed, Passed, Analysis]

  /** The YAML tag under which a kind is registered: `'!' + tag`. */
  function TagToken(t: Tag): string
  {
    "!" + t.Name()
  }

  /** The first tag in `tags` registered under `token`, if any. */
  function LookupTag(tags: seq<Tag>, token: string): (r: Option<Tag>)
    ensures r.Some? <==> exists i :: 0 <= i < |tags| && TagToken(tags[i]) == token
    ensures r.Some? ==> r.value in tags && TagToken(r.value) == token
  {
    if tags == [] then None
    else if TagToken(tags[0]) == token then Some(tags[0])
    else LookupTag(tags[1..], token)
  }

  /** The registered type a YAML tag selects, if any. */
  function ResolveTag(token: string): Option<Tag>
  {
    LookupTag(RegisteredTags, token)
  }

  /** The `construct` hook of every registered type: the mapping's own
      properties, with `RemarkType` set to the tag's name. */
  function Construct(t: Tag, data: Document): (r: Document)
    ensures r.RemarkType == Some(t.Name())
    ensures r.Pass == data.Pass && r.Function == data.Function
    ensures r.DebugLoc == data.DebugLoc && r.Args == data.Args
  {
    data.(RemarkType := Some(t.Name()))
  }

  /** Exactly the three tokens `!Missed`, `!Passed` and `!Analysis` are
      registered (case-sensitive), and each resolves to its own kind. */
  lemma RegisteredTokens(token: string)
    ensures ResolveTag(token).Some? <==> token == "!Missed" || token == "!Passed" || token == "!Analysis"
    ensures token == "!Missed" ==> ResolveTag(token) == Some(Missed)
    ensures token == "!Passed" ==> ResolveTag(token) == Some(Passed)
    ensures token == "!Analysis" ==> ResolveTag(token) == Some(Analysis)
  {
    assert TagToken(Missed) == "!Missed";
    assert TagToken(Passed) == "!Passed";
    assert TagToken(Analysis) == "!Analysis";
    assert "!Missed"[1] != "!Passed"[1] && "!Missed"[1] != "!Analysis"[1];
  }

  /** Resolving a kind's own token gives that kind back. */
  lemma {:induction false} ResolveTagToken(t: Tag)
    ensures ResolveTag(TagToken(t)) == Some(t)
  {
    RegisteredTokens(TagToken(t));
  }

  /** A tag replaces whatever `RemarkType` the body, or an inner tag, set. */
  lemma ConstructOverrides(outer: Tag, inner: Tag, data: Document)
    ensures Construct(outer, Construct(inner, data)) == Construct(outer, data)
    ensures Construct(outer, data).(RemarkType := data.RemarkType) == data
  {
  }

  // ---------------------------------------------------------------------
  // Message
  // ---------------------------------------------------------------------

  /** The text one non-null argument contributes to the message. */
  function FragmentOf(arg: Arg): string
    requires !arg.Null?
  {
    match arg
    case Text(s) => s
    case Value(str, serialised) => if str.Some? then str.value else serialised
  }

  /** `args.map(...)` over a list without null elements. */
  function FragmentsOf(items: seq<Arg>): (r: seq<string>)
    requires Null !in items
    ensures |r| == |items|
    ensures forall i :: 0 <= i < |items| ==> r[i] == FragmentOf(items[i])
  {
    if items == [] then [] else [FragmentOf(items[0])] + FragmentsOf(items[1..])
  }

  /** The sum of the lengths of `parts`. */
  function TotalLength(parts: seq<string>): nat
  {
    if parts == [] then 0 else |parts[0]| + TotalLength(parts[1..])
  }

  /** `Array.prototype.join(' ')`: exactly one space between neighbours. */
  function Join(parts: seq<string>): (r: string)
    ensures parts == [] ==> r == ""
    ensures parts != [] ==> |r| == TotalLength(parts) + |parts| - 1
  {
    if |parts| == 0 then ""
    else if |parts| == 1 then parts[0]
    else parts[0] + " " + Join(parts[1..])
  }

  /** Where fragment `k` starts in the joined text: after the fragments
      before it and one separator for each of them. */
  function FragmentOffset(parts: seq<string>, k: nat): nat
    requires k <= |parts|
  {
    TotalLength(parts[..k]) + k
  }

  /** The offsets of the fragments after the first, seen from the text
      that follows the first fragment and its separator. */
  lemma FragmentOffsetShift(parts: seq<string>, k: nat)
    requires 0 < k < |parts|
    ensures FragmentOffset(parts, k) == |parts[0]| + 1 + FragmentOffset(parts[1..], k - 1)
  {
    assert parts[..k][0] == parts[0] && parts[..k][1..] == parts[1..][..k - 1];
  }

  /** A slice that lies past a prefix is a slice of what follows it. */
  lemma SliceAfter(head: string, tail: string, i: nat, j: nat)
    requires |head| <= i <= j <= |head| + |tail|
    ensures (head + tail)[i..j] == tail[i - |head|..j - |head|]
  {
  }

  /** Fragment `k` of the joined text sits at its offset, whatever the
      fragments contain. */
  lemma {:induction false} JoinSlot(parts: seq<string>, k: nat)
    requires k < |parts|
    ensures FragmentOffset(parts, k) + |parts[k]| <= |Join(parts)|
    ensures Join(parts)[FragmentOffset(parts, k)..FragmentOffset(parts, k) + |parts[k]|] == parts[k]
  {
    assert parts[..0] == [];
    if k == 0 {
      assert FragmentOffset(parts, 0) == 0;
      if |parts| > 1 {
        var tail := " " + Join(parts[1..]);
        assert Join(parts) == parts[0] + tail;
        assert (parts[0] + tail)[0..|parts[0]|] == parts[0];
      } else {
        assert Join(parts)[0..|parts[0]|] == parts[0];
      }
    } else {
      var rest := parts[1..];
      JoinSlot(rest, k - 1);
      FragmentOffsetShift(parts, k);
      var off, off' := FragmentOffset(parts, k), FragmentOffset(rest, k - 1);
      var head, joined := parts[0] + " ", Join(rest);
      assert Join(parts) == head + joined;
      assert off == |head| + off';
      assert rest[k - 1] == parts[k];
      SliceAfter(head, joined, off, off + |parts[k]|);
      assert joined[off'..off' + |parts[k]|] == parts[k];
    }
  }

  /** Exactly one space follows every fragment of the joined text but the
      last, whatever the fragments contain. */
  lemma {:induction false} JoinSeparator(parts: seq<string>, k: nat)
    requires k < |parts| - 1
    ensures FragmentOffset(parts, k) + |parts[k]| < |Join(parts)|
    ensures Join(parts)[FragmentOffset(parts, k) + |parts[k]|] == ' '
  {
    assert parts[..0] == [];
    var rest, head := parts[1..], parts[0] + " ";
    var joined := Join(rest);
    assert Join(parts) == head + joined;
    if k == 0 {
      assert FragmentOffset(parts, 0) == 0;
      assert (head + joined)[|parts[0]|] == ' ';
    } else {
      JoinSeparator(rest, k - 1);
      FragmentOffsetShift(parts, k);
      var sep := FragmentOffset(rest, k - 1) + |parts[k]|;
      assert rest[k - 1] == parts[k];
      assert FragmentOffset(parts, k) + |parts[k]| == |head| + sep;
      assert (head + joined)[|head| + sep] == joined[sep];
    }
  }

  /** `s` is `parts` laid out with one space between neighbours: it has the
      right length, fragment `k` sits at its offset, and exactly one space
      follows every fragment but the last. */
  predicate LaidOut(s: string, parts: seq<string>)
  {
    && |s| == TotalLength(parts) + |parts| - 1
    && forall k :: 0 <= k < |parts| ==>
         && FragmentOffset(parts, k) + |parts[k]| <= |s|
         && s[FragmentOffset(parts, k)..FragmentOffset(parts, k) + |parts[k]|] == parts[k]
         && (k < |parts| - 1 ==>
               FragmentOffset(parts, k) + |parts[k]| < |s| &&
               s[FragmentOffset(parts, k) + |parts[k]|] == ' ')
  }

  /** Joining lays the fragments out with one space between neighbours,
      whatever the fragments contain. */
  lemma JoinIsLaidOut(parts: seq<string>)
    requires parts != []
    ensures LaidOut(Join(parts), parts)
  {
    forall k | 0 <= k < |parts|
      ensures FragmentOffset(parts, k) + |parts[k]| <= |Join(parts)|
      ensures Join(parts)[FragmentOffset(parts, k)..FragmentOffset(parts, k) + |parts[k]|] == parts[k]
      ensures k < |parts| - 1 ==>
                FragmentOffset(parts, k) + |parts[k]| < |Join(parts)| &&
                Join(parts)[FragmentOffset(parts, k) + |parts[k]|] == ' '
    {
      JoinSlot(parts, k);
      if k < |parts| - 1 {
        JoinSeparator(parts, k);
      }
    }
  }

  /** The layout of the fragments after the first, read in the text after
      the first fragment and its separator. */
  lemma LaidOutRest(s: string, parts: seq<string>, k: nat)
    requires 1 < |parts| && LaidOut(s, parts)
    requires k < |parts| - 1
    ensures |parts[0]| < |s|
    ensures var s', rest, off := s[|parts[0]| + 1..], parts[1..], FragmentOffset(parts[1..], k);
            && off + |rest[k]| <= |s'|
            && s'[off..off + |rest[k]|] == rest[k]
            && (k < |rest| - 1 ==> off + |rest[k]| < |s'| && s'[off + |rest[k]|] == ' ')
  {
    assert parts[..0] == [];
    assert FragmentOffset(parts, 0) == 0;
    var n, rest := |parts[0]|, parts[1..];
    FragmentOffsetShift(parts, k + 1);
    var off := FragmentOffset(rest, k);
    assert FragmentOffset(parts, k + 1) == n + 1 + off;
    assert parts[k + 1] == rest[k];
    assert s[n + 1..][off..off + |rest[k]|] == s[n + 1 + off..n + 1 + off + |rest[k]|];
  }

  /** The layout determines the text: the only string laid out from `parts`
      is their join. */
  lemma {:induction false} LaidOutIsJoin(s: string, parts: seq<string>)
    requires parts != []
    requires LaidOut(s, parts)
    ensures s == Join(parts)
  {
    assert parts[..0] == [];
    assert FragmentOffset(parts, 0) == 0;
    if |parts| == 1 {
      assert s[0..|parts[0]|] == parts[0];
    } else {
      var rest, n := parts[1..], |parts[0]|;
      assert s[..n] == parts[0] && s[n] == ' ';
      var s' := s[n + 1..];
      forall k | 0 <= k < |rest|
        ensures FragmentOffset(rest, k) + |rest[k]| <= |s'|
        ensures s'[FragmentOffset(rest, k)..FragmentOffset(rest, k) + |rest[k]|] == rest[k]
        ensures k < |rest| - 1 ==>
                  FragmentOffset(rest, k) + |rest[k]| < |s'| &&
                  s'[FragmentOffset(rest, k) + |rest[k]|] == ' '
      {
        LaidOutRest(s, parts, k);
      }
      assert TotalLength(parts) == n + TotalLength(rest);
      LaidOutIsJoin(s', rest);
      assert s == parts[0] + " " + s';
    }
  }

  /** Splitting at every space, as `s.split(' ')` does; the reference
      definition against which `Join` is checked. */
  function Split(s: string): (r: seq<string>)
    ensures |r| >= 1
  {
    if s == [] then [""]
    else
      var rest := Split(s[1..]);
      if s[0] == ' ' then [""] + rest else [[s[0]] + rest[0]] + rest[1..]
  }

  /** The message built from a document's `Args`, or the `TypeError` that
      building it raises. */
  function Message(args: ArgsValue): (r: Result<string, ParseError>)
    ensures r.Err? <==> args.NotAList? || (args.List? && Null in args.items)
    ensures args.NotAList? ==> r == Err(ArgsNotAList)
    ensures args.List? && Null in args.items ==> r == Err(NullArgument)
    ensures args.Missing? ==> r == Ok("")
  {
    match args
    case Missing => Ok("")
    case NotAList => Err(ArgsNotAList)
    case List(items) => if Null in items then Err(NullArgument) else Ok(Join(FragmentsOf(items)))
  }

  /** A string without spaces splits into itself. */
  lemma {:induction false} SplitWithoutSpace(a: string)
    requires ' ' !in a
    ensures Split(a) == [a]
  {
    if a != [] {
      SplitWithoutSpace(a[1..]);
      assert [a[0]] + a[1..] == a;
    }
  }

  /** Splitting `a + " " + b`, where `a` has no space, cuts at that space. */
  lemma {:induction false} SplitAtFirstSpace(a: string, b: string)
    requires ' ' !in a
    ensures Split(a + " " + b) == [a] + Split(b)
  {
    if a == [] {
      assert a + " " + b == [' '] + b;
      assert (a + " " + b)[1..] == b;
    } else {
      assert (a + " " + b)[1..] == a[1..] + " " + b;
      SplitAtFirstSpace(a[1..], b);
      assert [a[0]] + a[1..] == a;
    }
  }

  /** Joining and splitting again recovers the fragments when none of them
      holds a space: the message separates fragments by exactly one space. */
  lemma {:induction false} SplitJoin(parts: seq<string>)
    requires parts != []
    requires forall i :: 0 <= i < |parts| ==> ' ' !in parts[i]
    ensures Split(Join(parts)) == parts
  {
    if |parts| == 1 {
      SplitWithoutSpace(parts[0]);
    } else {
      SplitJoin(parts[1..]);
      SplitAtFirstSpace(parts[0], Join(parts[1..]));
      assert [parts[0]] + parts[1..] == parts;
    }
  }

  /** The message of a document: empty without `Args`; the fragment itself for
      a single argument; otherwise the fragments, in order, separated by one
      space each. It fails exactly for a non-list `Args` or a null argument. */
  lemma {:induction false} MessageShape(args: ArgsValue)
    ensures args.Missing? ==> Message(args) == Ok("")
    ensures Message(args).Err? <==> args.NotAList? || (args.List? && Null in args.items)
    ensures args.List? && |args.items| == 1 && !args.items[0].Null? ==>
              Message(args) == Ok(FragmentOf(args.items[0]))
    ensures args.List? && Null !in args.items && args.items != [] ==>
              var fs := FragmentsOf(args.items);
              LaidOut(Message(args).value, fs) &&
              ((forall i :: 0 <= i < |fs| ==> ' ' !in fs[i]) ==> Split(Message(args).value) == fs)
  {
    if args.List? && Null !in args.items && args.items != [] {
      var fs := FragmentsOf(args.items);
      JoinIsLaidOut(fs);
      if forall i :: 0 <= i < |fs| ==> ' ' !in fs[i] {
        SplitJoin(fs);
      }
    }
  }

  // ---------------------------------------------------------------------
  // One document
  // ---------------------------------------------------------------------

  /** Whether the loop keeps a loaded document: it is not null and has truthy
      `Pass`, `Function` and `DebugLoc`. */
  predicate Kept(doc: Option<Document>)
  {
    doc.Some? && Truthy(doc.value.Pass) && Truthy(doc.value.Function) && doc.value.DebugLoc.Some?
  }

  /** What the loop body does with one document. */
  datatype Step = Dropped | Emitted(remark: OptimizationRemark) | Thrown(error: ParseError)

  /** The loop body for one loaded document. */
  function NormaliseDocument(doc: Option<Document>): (s: Step)
    ensures s.Dropped? <==> !Kept(doc)
    ensures s.Thrown? <==> Kept(doc) && Message(doc.value.Args).Err?
    ensures s.Thrown? ==> Message(doc.value.Args) == Err(s.error)
    ensures s.Emitted? ==>
              var d, r := doc.value, s.remark;
              && r.RemarkType == (if Truthy(d.RemarkType) then d.RemarkType.value else "Analysis")
              && r.RemarkType != ""
              && r.Pass == d.Pass.value && r.Pass != ""
              && r.Function == d.Function.value && r.Function != ""
              && r.File == d.DebugLoc.value.File
              && r.Line == d.DebugLoc.value.Line
              && r.Column == d.DebugLoc.value.Column
              && Message(d.Args) == Ok(r.Message)
              && r.metrics.None?
  {
    if !Kept(doc) then Dropped
    else
      var d := doc.value;
      var remarkType := if Truthy(d.RemarkType) then d.RemarkType.value else Analysis.Name();
      match Message(d.Args)
      case Err(e) => Thrown(e)
      case Ok(message) =>
        Emitted(OptimizationRemark(remarkType, d.Pass.value, d.Function.value,
          d.DebugLoc.value.File, d.DebugLoc.value.Line, d.DebugLoc.value.Column, message, None))
  }

  /** A document carrying a registered tag is kept exactly when its body is,
      and then yields the body's remark with the tag's name as `RemarkType`,
      whatever `RemarkType` the body held. */
  lemma TaggedDocument(t: Tag, body: Document)
    ensures Kept(Some(Construct(t, body))) <==> Kept(Some(body))
    ensures NormaliseDocument(Some(Construct(t, body))).Emitted? <==> NormaliseDocument(Some(body)).Emitted?
    ensures NormaliseDocument(Some(Construct(t, body))).Emitted? ==>
              NormaliseDocument(Some(Construct(t, body))).remark ==
              NormaliseDocument(Some(body)).remark.(RemarkType := t.Name())
  {
  }

  // ---------------------------------------------------------------------
  // The whole document list
  // ---------------------------------------------------------------------

  /** What `parseLLVMRemarks` returns for the loaded documents, or the first
      `TypeError` it throws. */
  function Parse(docs: Loaded): (r: Result<seq<OptimizationRemark>, ParseError>)
    ensures r.Ok? ==> |r.value| == |KeptIndices(docs)| <= |docs|
    ensures r.Ok? ==> forall k :: 0 <= k < |r.value| ==> r.value[k].metrics.None?
  {
    if docs == [] then Ok([])
    else
      match Parse(docs[..|docs| - 1])
      case Err(e) => Err(e)
      case Ok(parsed) =>
        match NormaliseDocument(docs[|docs| - 1])
        case Dropped => Ok(parsed)
        case Emitted(r) => Ok(parsed + [r])
        case Thrown(e) => Err(e)
  }

  /** The positions of the kept documents, in increasing order: the reference
      definition of the filter. */
  function KeptIndices(docs: Loaded): (idx: seq<nat>)
    ensures |idx| <= |docs|
    ensures forall k :: 0 <= k < |idx| ==> idx[k] < |docs| && Kept(docs[idx[k]])
    ensures forall i :: 0 <= i < |docs| && Kept(docs[i]) ==> i in idx
    ensures forall k, l :: 0 <= k < l < |idx| ==> idx[k] < idx[l]
  {
    if docs == [] then []
    else
      var prefix := KeptIndices(docs[..|docs| - 1]);
      if Kept(docs[|docs| - 1]) then prefix + [|docs| - 1] else prefix
  }

  /** Once a prefix of the documents throws, the whole list throws the same. */
  lemma {:induction false} ParseErrorPersists(docs: Loaded, n: nat)
    requires n <= |docs|
    requires Parse(docs[..n]).Err?
    ensures Parse(docs) == Parse(docs[..n])
    decreases |docs| - n
  {
    if n < |docs| {
      var ext := docs[..n + 1];
      assert ext[..|ext| - 1] == docs[..n];
      ParseErrorPersists(docs, n + 1);
    } else {
      assert docs[..n] == docs;
    }
  }

  /** When the normaliser succeeds it is an order-preserving filter-map: it
      yields exactly one remark per kept document, in document order. */
  lemma {:induction false} ParseIsFilterMap(docs: Loaded)
    requires Parse(docs).Ok?
    ensures var p, idx := Parse(docs).value, KeptIndices(docs);
              |p| == |idx| &&
              forall k :: 0 <= k < |p| ==> NormaliseDocument(docs[idx[k]]) == Emitted(p[k])
  {
    if docs != [] {
      var prefix, last := docs[..|docs| - 1], docs[|docs| - 1];
      ParseIsFilterMap(prefix);
      var pp, pidx := Parse(prefix).value, KeptIndices(prefix);
      forall k | 0 <= k < |pp|
        ensures NormaliseDocument(docs[pidx[k]]) == Emitted(pp[k])
      {
        assert docs[pidx[k]] == prefix[pidx[k]];
      }
    }
  }

  /** When the normaliser fails, some kept document's message could not be
      built, and the error is that of the first such document. */
  lemma {:induction false} ParseFailsAtFirstThrow(docs: Loaded)
    requires Parse(docs).Err?
    ensures exists i :: 0 <= i < |docs| && NormaliseDocument(docs[i]) == Thrown(Parse(docs).error) &&
              forall j :: 0 <= j < i ==> !NormaliseDocument(docs[j]).Thrown?
  {
    var prefix, last := docs[..|docs| - 1], |docs| - 1;
    if Parse(prefix).Err? {
      ParseFailsAtFirstThrow(prefix);
      var i :| 0 <= i < |prefix| && NormaliseDocument(prefix[i]) == Thrown(Parse(prefix).error) &&
                forall j :: 0 <= j < i ==> !NormaliseDocument(prefix[j]).Thrown?;
      assert prefix[i] == docs[i];
      assert forall j :: 0 <= j < i ==> prefix[j] == docs[j];
    } else {
      ParseSucceedsWithoutThrow(prefix);
      assert forall j :: 0 <= j < last ==> prefix[j] == docs[j];
      assert NormaliseDocument(docs[last]) == Thrown(Parse(docs).error);
    }
  }

  /** When the normaliser succeeds no document threw: dropped documents never
      raise an error. */
  lemma {:induction false} ParseSucceedsWithoutThrow(docs: Loaded)
    requires Parse(docs).Ok?
    ensures forall i :: 0 <= i < |docs| ==> !NormaliseDocument(docs[i]).Thrown?
  {
    if docs != [] {
      var prefix := docs[..|docs| - 1];
      ParseSucceedsWithoutThrow(prefix);
      assert forall i :: 0 <= i < |prefix| ==> prefix[i] == docs[i];
    }
  }

  /** The normaliser fails exactly when some document's conversion throws. */
  lemma ParseFailsIffSomeThrow(docs: Loaded)
    ensures Parse(docs).Err? <==> exists i :: 0 <= i < |docs| && NormaliseDocument(docs[i]).Thrown?
  {
    if Parse(docs).Err? {
      ParseFailsAtFirstThrow(docs);
    } else {
      ParseSucceedsWithoutThrow(docs);
    }
  }

  /** The output has at most as many remarks as there were documents, and no
      remark it produces carries `metrics`. */
  lemma {:induction false} ParsedRemarks(docs: Loaded)
    requires Parse(docs).Ok?
    ensures |Parse(docs).value| <= |docs|
    ensures forall k :: 0 <= k < |Parse(docs).value| ==> Parse(docs).value[k].metrics.None?
  {
    ParseIsFilterMap(docs);
    var p, idx := Parse(docs).value, KeptIndices(docs);
    forall k | 0 <= k < |p|
      ensures p[k].metrics.None?
    {
      assert NormaliseDocument(docs[idx[k]]) == Emitted(p[k]);
    }
  }

  /** `parseLLVMRemarks` applied to the loader's output: the loop over the
      documents, skipping those without `Pass`, `Function` or `DebugLoc` and
      pushing one record for each other one. */
  method ParseLLVMRemarks(rawRemarks: Loaded) returns (result: Result<seq<OptimizationRemark>, ParseError>)
    ensures result == Parse(rawRemarks)
    ensures result.Ok? ==> |result.value| <= |rawRemarks|
    ensures result.Ok? ==> forall k :: 0 <= k < |result.value| ==> result.value[k].metrics.None?
  {
    var parsed: seq<OptimizationRemark> := [];
    for i := 0 to |rawRemarks|
      invariant Parse(rawRemarks[..i]) == Ok(parsed)
    {
      var remark := rawRemarks[i];
      assert rawRemarks[..i + 1][..i] == rawRemarks[..i];
      if remark.None? || !Truthy(remark.value.Pass) || !Truthy(remark.value.Function) || remark.value.DebugLoc.None? {
        continue;
      }
      var d := remark.value;
      var remarkType := if Truthy(d.RemarkType) then d.RemarkType.value else "Analysis";
      var message := Message(d.Args);
      if message.Err? {
        ParseErrorPersists(rawRemarks, i + 1);
        return Err(message.error);
      }
      var loc := d.DebugLoc.value;
      parsed := parsed + [OptimizationRemark(remarkType, d.Pass.value, d.Function.value,
                                             loc.File, loc.Line, loc.Column, message.value, None)];
    }
    assert rawRemarks[..|rawRemarks|] == rawRemarks;
    result := Ok(parsed);
    ParsedRemarks(rawRemarks);
  }
}
