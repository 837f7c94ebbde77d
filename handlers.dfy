/** The handler registry (`AnyHandler`): the list of registered handlers,
    the documents the client has opened, the merge of the handlers'
    capabilities, and the aggregation of their diagnostics for a document. */
module Handlers {
  import opened Types
  import opened Capabilities
  import Just

  /** `Display` for the handler error. */
  function ErrorText(e: HandlerError): (s: string)
    ensures e.Log? ==> s == e.text
    ensures e.NoSuchDocument? ==> |s| == |NoSuchDocumentPrefix| + |e.uri|
    ensures e.NoSuchDocument? ==> s == "No such document: " + e.uri
  {
    match e
    case Log(text) => text
    case NoSuchDocument(uri) => NoSuchDocumentPrefix + uri
  }

  const NoSuchDocumentPrefix: string := "No such document: "

  /** The text of a missing-document error names the document: the uri is
      what follows the fixed prefix, so distinct uris give distinct texts. */
  lemma NoSuchDocumentNamesUri(uri: Uri, other: Uri)
    ensures ErrorText(NoSuchDocument(uri))[..|NoSuchDocumentPrefix|] == NoSuchDocumentPrefix
    ensures ErrorText(NoSuchDocument(uri))[|NoSuchDocumentPrefix|..] == uri
    ensures uri != other ==> ErrorText(NoSuchDocument(uri)) != ErrorText(NoSuchDocument(other))
  {
    var s, t := ErrorText(NoSuchDocument(uri)), ErrorText(NoSuchDocument(other));
    assert s[|NoSuchDocumentPrefix|..] == uri;
    assert t[|NoSuchDocumentPrefix|..] == other;
  }

  // ---------------------------------------------------------------------------
  // Dispatch over the kinds of handler

  /** The kinds of handler the registry knows. */
  datatype AllHandlers = JustHandler(just: Just.Just)

  function FiletypeSupported(h: AllHandlers, filetype: string): (r: bool)
    ensures h.JustHandler? ==> (r <==> filetype == "just" || filetype == "justfile")
  {
    match h
    case JustHandler(j) => Just.FiletypeSupported(filetype)
  }

  function HandlerCapabilities(h: AllHandlers): (c: Capabilities)
    ensures h.JustHandler? ==> c.Keys == {DiagnosticProvider}
  {
    match h
    case JustHandler(j) => Just.GetCapabilities()
  }

  /** A handler's diagnostics for the document, given what running its tool
      on the document's contents produced. */
  function HandlerDiagnostics(h: AllHandlers, outcome: Just.ToolOutcome): (r: Result<seq<Diagnostic>, HandlerError>)
    ensures h.JustHandler? ==> r == Just.UpdateDiagnostics(outcome)
    ensures r.Err? ==> r.error.Log?
  {
    match h
    case JustHandler(j) => Just.UpdateDiagnostics(outcome)
  }

  // ---------------------------------------------------------------------------
  // The registry

  /** A document as the client last described it. */
  datatype TextDocument = TextDocument(languageId: string, content: string)

  datatype AnyHandler = AnyHandler(handlers: seq<AllHandlers>, textDocuments: map<Uri, TextDocument>)

  /** `AnyHandler::new`: the `just` handler is registered when probing for
      the tool found it, and no document is open yet. */
  function New(just: Option<Just.Just>): (a: AnyHandler)
    ensures |a.handlers| <= 1
    ensures |a.handlers| == 1 <==> just.Some?
    ensures just.Some? ==> a.handlers[0] == JustHandler(just.value)
    ensures a.textDocuments == map[]
  {
    match just
    case None => AnyHandler([], map[])
    case Some(j) => AnyHandler([JustHandler(j)], map[])
  }

  /** What each handler offers, in registration order. */
  function Offers(handlers: seq<AllHandlers>): (offers: seq<Capabilities>)
    ensures |offers| == |handlers|
    ensures forall i :: 0 <= i < |handlers| ==> offers[i] == HandlerCapabilities(handlers[i])
  {
    if |handlers| == 0 then [] else Offers(handlers[..|handlers| - 1]) + [HandlerCapabilities(handlers[|handlers| - 1])]
  }

  // ---------------------------------------------------------------------------
  // Capabilities

  /** The fields the merge visits, in the order it visits them, in five
      runs of seven (the last of six). */
  const AllFields: seq<Field> := FieldsA + FieldsB + FieldsC + FieldsD + FieldsE

  const FieldsA: seq<Field> := [
    PositionEncoding, TextDocumentSync, NotebookDocumentSync,
    SelectionRangeProvider, HoverProvider, CompletionProvider,
    SignatureHelpProvider]
  const FieldsB: seq<Field> := [
    DefinitionProvider, TypeDefinitionProvider, ImplementationProvider,
    ReferencesProvider, DocumentHighlightProvider, DocumentSymbolProvider,
    WorkspaceSymbolProvider]
  const FieldsC: seq<Field> := [
    CodeActionProvider, CodeLensProvider, DocumentFormattingProvider,
    DocumentRangeFormattingProvider, DocumentOnTypeFormattingProvider, RenameProvider,
    DocumentLinkProvider]
  const FieldsD: seq<Field> := [
    ColorProvider, FoldingRangeProvider, DeclarationProvider,
    ExecuteCommandProvider, Workspace, CallHierarchyProvider,
    SemanticTokensProvider]
  const FieldsE: seq<Field> := [
    MonikerProvider, LinkedEditingRangeProvider, InlineValueProvider,
    InlayHintProvider, DiagnosticProvider, Experimental]

  /** The merge visits every field. */
  lemma AllFieldsComplete(f: Field)
    ensures f in AllFields
  {
    match f
    case PositionEncoding => assert f in FieldsA;
    case TextDocumentSync => assert f in FieldsA;
    case NotebookDocumentSync => assert f in FieldsA;
    case SelectionRangeProvider => assert f in FieldsA;
    case HoverProvider => assert f in FieldsA;
    case CompletionProvider => assert f in FieldsA;
    case SignatureHelpProvider => assert f in FieldsA;
    case DefinitionProvider => assert f in FieldsB;
    case TypeDefinitionProvider => assert f in FieldsB;
    case ImplementationProvider => assert f in FieldsB;
    case ReferencesProvider => assert f in FieldsB;
    case DocumentHighlightProvider => assert f in FieldsB;
    case DocumentSymbolProvider => assert f in FieldsB;
    case WorkspaceSymbolProvider => assert f in FieldsB;
    case CodeActionProvider => assert f in FieldsC;
    case CodeLensProvider => assert f in FieldsC;
    case DocumentFormattingProvider => assert f in FieldsC;
    case DocumentRangeFormattingProvider => assert f in FieldsC;
    case DocumentOnTypeFormattingProvider => assert f in FieldsC;
    case RenameProvider => assert f in FieldsC;
    case DocumentLinkProvider => assert f in FieldsC;
    case ColorProvider => assert f in FieldsD;
    case FoldingRangeProvider => assert f in FieldsD;
    case DeclarationProvider => assert f in FieldsD;
    case ExecuteCommandProvider => assert f in FieldsD;
    case Workspace => assert f in FieldsD;
    case CallHierarchyProvider => assert f in FieldsD;
    case SemanticTokensProvider => assert f in FieldsD;
    case MonikerProvider => assert f in FieldsE;
    case LinkedEditingRangeProvider => assert f in FieldsE;
    case InlineValueProvider => assert f in FieldsE;
    case InlayHintProvider => assert f in FieldsE;
    case DiagnosticProvider => assert f in FieldsE;
    case Experimental => assert f in FieldsE;
  }

  /** Two records that agree on every field are the same record. */
  lemma SameLookups(a: Capabilities, b: Capabilities)
    requires forall f :: Lookup(a, f) == Lookup(b, f)
    ensures a == b
  {
    assert forall f :: f in a <==> Lookup(a, f).Some?;
    assert forall f :: f in a ==> a[f] == Lookup(b, f).value;
  }

  /** One handler's turn: `get_or_insert` on each field it offers, in the
      order the fields are listed. */
  method FillFields(caps: Capabilities, offered: Capabilities) returns (r: Capabilities)
    ensures r == FillEmpty(caps, offered)
  {
    r := caps;
    var j := 0;
    while j < |AllFields|
      invariant 0 <= j <= |AllFields|
      invariant forall f :: Lookup(r, f) == if f in AllFields[..j] then Lookup(FillEmpty(caps, offered), f)
                                            else Lookup(caps, f)
    {
      var f := AllFields[j];
      if f in offered && f !in r {
        r := r[f := offered[f]];
      }
      assert AllFields[..j + 1] == AllFields[..j] + [f];
      j := j + 1;
    }
    forall f ensures Lookup(r, f) == Lookup(FillEmpty(caps, offered), f) {
      AllFieldsComplete(f);
      assert AllFields[..j] == AllFields;
    }
    SameLookups(r, FillEmpty(caps, offered));
  }

  /** `AnyHandler::get_capabilities`: the base record, then every handler in
      registration order fills the fields that are still absent. */
  method GetCapabilities(any: AnyHandler) returns (caps: Capabilities)
    ensures caps == Merged(Base(), Offers(any.handlers))
    ensures Lookup(caps, PositionEncoding) == Some(Utf16)
    ensures Lookup(caps, TextDocumentSync) == Some(Incremental)
    ensures forall f :: f != PositionEncoding && f != TextDocumentSync ==>
              Lookup(caps, f) == FirstOffer(Offers(any.handlers), f)
    ensures any.handlers == [] ==> caps == Base()
  {
    var offers := Offers(any.handlers);
    caps := Base();
    var i := 0;
    while i < |any.handlers|
      invariant 0 <= i <= |any.handlers|
      invariant caps == Merged(Base(), offers[..i])
    {
      var offered := HandlerCapabilities(any.handlers[i]);
      caps := FillFields(caps, offered);
      assert offers[..i + 1][..i] == offers[..i];
      i := i + 1;
    }
    assert offers[..i] == offers;
    MergedFromBase(offers);
  }

  /** With the `just` handler registered, the registry's merged
      capabilities are UTF-16 positions, incremental synchronisation and
      diagnostics, and nothing else. */
  lemma JustCapabilities(j: Just.Just)
    ensures Merged(Base(), Offers(New(Some(j)).handlers)).Keys
            == {PositionEncoding, TextDocumentSync, DiagnosticProvider}
  {
    var offers := Offers(New(Some(j)).handlers);
    assert offers == [Just.GetCapabilities()];
    assert offers[..0] == [];
  }

  // ---------------------------------------------------------------------------
  // Diagnostics

  /** Whether handler `h` takes part for a document of `filetype`, and if so
      what it returns. */
  function Answer(h: AllHandlers, filetype: string, outcome: Just.ToolOutcome): Option<Result<seq<Diagnostic>, HandlerError>>
  {
    if FiletypeSupported(h, filetype) then Some(HandlerDiagnostics(h, outcome)) else None
  }

  /** The lists of the supported handlers that succeeded, concatenated in
      registration order. */
  function Collected(handlers: seq<AllHandlers>, filetype: string, outcomes: seq<Just.ToolOutcome>): seq<Diagnostic>
    requires |outcomes| == |handlers|
  {
    if |handlers| == 0 then []
    else
      var n := |handlers| - 1;
      var a := Answer(handlers[n], filetype, outcomes[n]);
      Collected(handlers[..n], filetype, outcomes[..n]) + (if a.Some? && a.value.Ok? then a.value.value else [])
  }

  /** The errors of the supported handlers that failed, in registration
      order. */
  function Failures(handlers: seq<AllHandlers>, filetype: string, outcomes: seq<Just.ToolOutcome>): seq<HandlerError>
    requires |outcomes| == |handlers|
  {
    if |handlers| == 0 then []
    else
      var n := |handlers| - 1;
      var a := Answer(handlers[n], filetype, outcomes[n]);
      Failures(handlers[..n], filetype, outcomes[..n]) + (if a.Some? && a.value.Err? then [a.value.error] else [])
  }

  /** The handlers asked for diagnostics: the supported ones, in order. */
  function Asked(handlers: seq<AllHandlers>, filetype: string): seq<nat>
  {
    if |handlers| == 0 then []
    else
      var n := |handlers| - 1;
      Asked(handlers[..n], filetype) + (if FiletypeSupported(handlers[n], filetype) then [n] else [])
  }

  /** One more handler extends the three folds by its own answer. */
  lemma GatherStep(handlers: seq<AllHandlers>, filetype: string, outcomes: seq<Just.ToolOutcome>, i: nat)
    requires |outcomes| == |handlers|
    requires i < |handlers|
    ensures var a := Answer(handlers[i], filetype, outcomes[i]);
            Collected(handlers[..i + 1], filetype, outcomes[..i + 1])
            == Collected(handlers[..i], filetype, outcomes[..i]) + (if a.Some? && a.value.Ok? then a.value.value else [])
    ensures var a := Answer(handlers[i], filetype, outcomes[i]);
            Failures(handlers[..i + 1], filetype, outcomes[..i + 1])
            == Failures(handlers[..i], filetype, outcomes[..i]) + (if a.Some? && a.value.Err? then [a.value.error] else [])
    ensures Asked(handlers[..i + 1], filetype)
            == Asked(handlers[..i], filetype) + (if FiletypeSupported(handlers[i], filetype) then [i] else [])
  {
    assert handlers[..i + 1][..i] == handlers[..i];
    assert outcomes[..i + 1][..i] == outcomes[..i];
  }

  /** `AnyHandler::update_diagnostics`. `outcomes[i]` is what running the
      tool of handler `i` on the document's contents produces; `asked`
      lists, in order, the handlers that were asked for diagnostics. */
  method UpdateDiagnostics(any: AnyHandler, uri: Uri, outcomes: seq<Just.ToolOutcome>)
    returns (r: Result<seq<Diagnostic>, HandlerError>, asked: seq<nat>)
    requires |outcomes| == |any.handlers|
    ensures uri !in any.textDocuments ==> r == Err(NoSuchDocument(uri)) && asked == []
    ensures uri in any.textDocuments ==>
              var ft := any.textDocuments[uri].languageId;
              var diags := Collected(any.handlers, ft, outcomes);
              var errs := Failures(any.handlers, ft, outcomes);
              && asked == Asked(any.handlers, ft)
              && (r.Err? <==> diags == [] && errs != [])
              && (r.Err? ==> r.error == errs[|errs| - 1])
              && (r.Ok? ==> r.value == diags)
  {
    asked := [];
    if uri !in any.textDocuments {
      return Err(NoSuchDocument(uri)), asked;
    }
    var doc := any.textDocuments[uri];
    var diagnostics: seq<Diagnostic> := [];
    var errors: seq<HandlerError> := [];
    var i := 0;
    while i < |any.handlers|
      invariant 0 <= i <= |any.handlers|
      invariant diagnostics == Collected(any.handlers[..i], doc.languageId, outcomes[..i])
      invariant errors == Failures(any.handlers[..i], doc.languageId, outcomes[..i])
      invariant asked == Asked(any.handlers[..i], doc.languageId)
    {
      GatherStep(any.handlers, doc.languageId, outcomes, i);
      var handler := any.handlers[i];
      if FiletypeSupported(handler, doc.languageId) {
        asked := asked + [i];
        match HandlerDiagnostics(handler, outcomes[i])
        case Ok(newDiags) =>
          diagnostics := diagnostics + newDiags;
        case Err(e) =>
          errors := errors + [e];
      }
      i := i + 1;
    }
    assert any.handlers[..i] == any.handlers;
    assert outcomes[..i] == outcomes;
    if diagnostics == [] && errors != [] {
      return Err(errors[|errors| - 1]), asked;
    }
    return Ok(diagnostics), asked;
  }

  /** Only the supported handlers are asked, each once, in order. */
  lemma {:induction false} AskedAreSupported(handlers: seq<AllHandlers>, filetype: string)
    ensures forall k :: 0 <= k < |Asked(handlers, filetype)| ==>
              Asked(handlers, filetype)[k] < |handlers|
              && FiletypeSupported(handlers[Asked(handlers, filetype)[k]], filetype)
    ensures forall i :: 0 <= i < |handlers| && FiletypeSupported(handlers[i], filetype) ==>
              i in Asked(handlers, filetype)
    ensures forall k, l :: 0 <= k < l < |Asked(handlers, filetype)| ==>
              Asked(handlers, filetype)[k] < Asked(handlers, filetype)[l]
  {
    if |handlers| > 0 {
      var n := |handlers| - 1;
      AskedAreSupported(handlers[..n], filetype);
      assert forall i :: 0 <= i < n ==> handlers[..n][i] == handlers[i];
    }
  }

  /** The outcome of an unsupported handler's tool plays no part: the
      handler is not asked. */
  lemma {:induction false} UnsupportedIgnored(handlers: seq<AllHandlers>, filetype: string,
                                             outcomes: seq<Just.ToolOutcome>, other: seq<Just.ToolOutcome>)
    requires |outcomes| == |handlers| == |other|
    requires forall i :: 0 <= i < |handlers| && FiletypeSupported(handlers[i], filetype) ==>
               outcomes[i] == other[i]
    ensures Collected(handlers, filetype, outcomes) == Collected(handlers, filetype, other)
    ensures Failures(handlers, filetype, outcomes) == Failures(handlers, filetype, other)
  {
    if |handlers| > 0 {
      var n := |handlers| - 1;
      assert forall i :: 0 <= i < n ==> handlers[..n][i] == handlers[i] && outcomes[..n][i] == outcomes[i]
                                          && other[..n][i] == other[i];
      UnsupportedIgnored(handlers[..n], filetype, outcomes[..n], other[..n]);
    }
  }

  /** When no handler supports the filetype, the document has no
      diagnostics and no error. */
  lemma {:induction false} NoneSupported(handlers: seq<AllHandlers>, filetype: string, outcomes: seq<Just.ToolOutcome>)
    requires |outcomes| == |handlers|
    requires forall i :: 0 <= i < |handlers| ==> !FiletypeSupported(handlers[i], filetype)
    ensures Collected(handlers, filetype, outcomes) == []
    ensures Failures(handlers, filetype, outcomes) == []
  {
    if |handlers| > 0 {
      var n := |handlers| - 1;
      assert forall i :: 0 <= i < n ==> handlers[..n][i] == handlers[i];
      NoneSupported(handlers[..n], filetype, outcomes[..n]);
    }
  }

  /** Every failure a handler reports is a logged message; the missing-
      document error comes only from the registry itself. */
  lemma {:induction false} FailuresAreLogged(handlers: seq<AllHandlers>, filetype: string, outcomes: seq<Just.ToolOutcome>)
    requires |outcomes| == |handlers|
    ensures forall k :: 0 <= k < |Failures(handlers, filetype, outcomes)| ==>
              Failures(handlers, filetype, outcomes)[k].Log?
  {
    if |handlers| > 0 {
      var n := |handlers| - 1;
      FailuresAreLogged(handlers[..n], filetype, outcomes[..n]);
    }
  }

  /** Two `just` handlers on a justfile: the first fails, the second
      reports nothing. The empty success does not hide the failure. */
  lemma EmptySuccessKeepsFailure(j: Just.Just)
    ensures var hs := [JustHandler(j), JustHandler(j)];
            var outs := [Just.IoFailure("spawn failed"), Just.Exited(true, "", "")];
            Collected(hs, "just", outs) == [] && Failures(hs, "just", outs) == [Log("spawn failed")]
  {
    var hs := [JustHandler(j), JustHandler(j)];
    var outs := [Just.IoFailure("spawn failed"), Just.Exited(true, "", "")];
    assert FiletypeSupported(JustHandler(j), "just");
    assert hs[..1] == [JustHandler(j)] && outs[..1] == [Just.IoFailure("spawn failed")];
    assert hs[..1][..0] == [] && outs[..1][..0] == [];
    assert Collected(hs[..1], "just", outs[..1]) == [];
    assert Failures(hs[..1], "just", outs[..1]) == [Log("spawn failed")];
    assert Just.UpdateDiagnostics(outs[1]) == Ok([]);
  }
}
