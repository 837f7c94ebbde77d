/** The server capability record and the merge policy of
    `AnyHandler::get_capabilities`: starting from a base record, every
    handler in registration order may fill a field that is still absent,
    and a field once set is never overwritten. */
module Capabilities {
  import opened Types

  /** The fields of `ServerCapabilities` that the merge visits, in the
      order the merge lists them. */
  datatype Field =
    | PositionEncoding | TextDocumentSync | NotebookDocumentSync
    | SelectionRangeProvider | HoverProvider | CompletionProvider
    | SignatureHelpProvider | DefinitionProvider | TypeDefinitionProvider
    | ImplementationProvider | ReferencesProvider | DocumentHighlightProvider
    | DocumentSymbolProvider | WorkspaceSymbolProvider | CodeActionProvider
    | CodeLensProvider | DocumentFormattingProvider
    | DocumentRangeFormattingProvider | DocumentOnTypeFormattingProvider
    | RenameProvider | DocumentLinkProvider | ColorProvider
    | FoldingRangeProvider | DeclarationProvider | ExecuteCommandProvider
    | Workspace | CallHierarchyProvider | SemanticTokensProvider
    | MonikerProvider | LinkedEditingRangeProvider | InlineValueProvider
    | InlayHintProvider | DiagnosticProvider | Experimental

  /** A field's value. The position encoding and the two document
      synchronisation kinds the core sets are named; every other option
      structure is opaque. */
  datatype Value = Utf16 | Incremental | Full | Opaque(description: string)

  /** A capability record: a field is present (mapped) or absent. */
  type Capabilities = map<Field, Value>

  function Lookup(c: Capabilities, f: Field): Option<Value> {
    if f in c then Some(c[f]) else None
  }

  /** The record the merge starts from: UTF-16 positions and incremental
      document synchronisation, everything else absent. */
  function Base(): (c: Capabilities)
    ensures Lookup(c, PositionEncoding) == Some(Utf16)
    ensures Lookup(c, TextDocumentSync) == Some(Incremental)
    ensures forall f :: f != PositionEncoding && f != TextDocumentSync ==> Lookup(c, f) == None
  {
    map[PositionEncoding := Utf16, TextDocumentSync := Incremental]
  }

  /** One handler's turn of the merge: `get_or_insert` on every field the
      handler offers. */
  function FillEmpty(caps: Capabilities, offered: Capabilities): (r: Capabilities)
    ensures forall f :: Lookup(r, f) == if f in caps then Some(caps[f]) else Lookup(offered, f)
  {
    map f | f in caps.Keys + offered.Keys :: if f in caps then caps[f] else offered[f]
  }

  /** The merge over the offers of the handlers, in registration order. */
  function Merged(base: Capabilities, offers: seq<Capabilities>): Capabilities
  {
    if |offers| == 0 then base
    else FillEmpty(Merged(base, offers[..|offers| - 1]), offers[|offers| - 1])
  }

  /** Reference: the value of the first offer, in order, that sets `f`. */
  function FirstOffer(offers: seq<Capabilities>, f: Field): Option<Value>
  {
    if |offers| == 0 then None
    else if f in offers[0] then Some(offers[0][f])
    else FirstOffer(offers[1..], f)
  }

  lemma {:induction false} FirstOfferAppend(offers: seq<Capabilities>, o: Capabilities, f: Field)
    ensures FirstOffer(offers + [o], f)
            == if FirstOffer(offers, f).Some? then FirstOffer(offers, f) else Lookup(o, f)
    decreases |offers|
  {
    if |offers| > 0 {
      assert (offers + [o])[0] == offers[0];
      assert (offers + [o])[1..] == offers[1..] + [o];
      FirstOfferAppend(offers[1..], o, f);
    }
  }

  /** The merged value of a field is the base's when the base sets it, and
      otherwise the first handler's that offers it (absent if none does). */
  lemma {:induction false} MergedIsFirstOffer(base: Capabilities, offers: seq<Capabilities>, f: Field)
    ensures Lookup(Merged(base, offers), f)
            == if f in base then Some(base[f]) else FirstOffer(offers, f)
    decreases |offers|
  {
    if |offers| > 0 {
      var init, last := offers[..|offers| - 1], offers[|offers| - 1];
      MergedIsFirstOffer(base, init, f);
      assert offers == init + [last];
      FirstOfferAppend(init, last, f);
    }
  }

  /** Merging onto the base record keeps its UTF-16 position encoding and
      incremental synchronisation; every other field comes from the first
      handler that offers it. */
  lemma MergedFromBase(offers: seq<Capabilities>)
    ensures Lookup(Merged(Base(), offers), PositionEncoding) == Some(Utf16)
    ensures Lookup(Merged(Base(), offers), TextDocumentSync) == Some(Incremental)
    ensures forall f :: f != PositionEncoding && f != TextDocumentSync ==>
              Lookup(Merged(Base(), offers), f) == FirstOffer(offers, f)
  {
    MergedIsFirstOffer(Base(), offers, PositionEncoding);
    MergedIsFirstOffer(Base(), offers, TextDocumentSync);
    forall f | f != PositionEncoding && f != TextDocumentSync
      ensures Lookup(Merged(Base(), offers), f) == FirstOffer(offers, f)
    {
      MergedIsFirstOffer(Base(), offers, f);
    }
  }

  /** Whatever the handlers offer, the fields of the base keep their value. */
  lemma {:induction false} MergedKeepsBase(base: Capabilities, offers: seq<Capabilities>)
    ensures forall f :: f in base ==> Lookup(Merged(base, offers), f) == Some(base[f])
    decreases |offers|
  {
    if |offers| > 0 {
      MergedKeepsBase(base, offers[..|offers| - 1]);
    }
  }

  /** Registering one more handler never changes a field that is already
      set, and fills exactly the absent fields the new handler offers. */
  lemma MergedAppend(base: Capabilities, offers: seq<Capabilities>, o: Capabilities)
    ensures forall f :: f in Merged(base, offers) ==>
              Lookup(Merged(base, offers + [o]), f) == Some(Merged(base, offers)[f])
    ensures forall f :: f !in Merged(base, offers) ==>
              Lookup(Merged(base, offers + [o]), f) == Lookup(o, f)
  {
    assert (offers + [o])[..|offers|] == offers;
  }

  /** Two handlers that disagree: the first registered wins a field both
      offer, and the second fills a field only it offers. */
  lemma MergeOrderExample()
    ensures var a := map[HoverProvider := Opaque("simple")];
            var b := map[HoverProvider := Opaque("rich"), CompletionProvider := Opaque("basic")];
            var m := Merged(Base(), [a, b]);
            Lookup(m, HoverProvider) == Some(Opaque("simple"))
            && Lookup(m, CompletionProvider) == Some(Opaque("basic"))
            && Lookup(m, PositionEncoding) == Some(Utf16)
  {
    var a := map[HoverProvider := Opaque("simple")];
    var b := map[HoverProvider := Opaque("rich"), CompletionProvider := Opaque("basic")];
    MergedIsFirstOffer(Base(), [a, b], HoverProvider);
    MergedIsFirstOffer(Base(), [a, b], CompletionProvider);
    MergedIsFirstOffer(Base(), [a, b], PositionEncoding);
    assert [a, b][1..] == [b];
  }
}
