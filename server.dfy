/** The language server (`Backend`): the documents it tracks, each with the
    handler chosen for its filetype when it was opened, and what it sends to
    the client. Messages to the client are appended to an event log in the
    order they are sent. */
module Server {
  import opened Types
  import Capabilities
  import Handlers

  datatype MessageType = ErrorMessage | WarningMessage | InfoMessage

  /** What the server sends to the client. */
  datatype Event =
    | Publish(uri: Uri, diagnostics: seq<Diagnostic>, version: Option<i32>)
    | LogMessage(kind: MessageType, text: string)

  /** A tracked document: its current text and version, and its handler. */
  datatype Document<H> = Document(contents: string, version: i32, handler: H)

  /** The server's state: the tracked documents and everything sent so far. */
  datatype ServerState<H> = ServerState(documents: map<Uri, Document<H>>, events: seq<Event>)

  /** The notifications the server reacts to. */
  datatype Notification =
    | DidOpen(uri: Uri, version: i32, languageId: string, text: string)
    | DidChange(uri: Uri, version: i32, changes: seq<string>)
    | DidSave(uri: Uri)
    | DidClose(uri: Uri)

  /** A notification the server can take: a change carries at least one
      content change. */
  predicate Acceptable(n: Notification) {
    n.DidChange? ==> |n.changes| > 0
  }

  // ---------------------------------------------------------------------------
  // The transitions, on values

  /** `init_handler`: track the document with a fresh handler for its
      filetype, or warn that there is none. */
  function Init<H>(handlerFor: string -> Option<H>, s: ServerState<H>, uri: Uri, version: i32, filetype: string): ServerState<H>
  {
    match handlerFor(filetype)
    case None => s.(events := s.events + [LogMessage(WarningMessage, NoHandlerText(filetype))])
    case Some(h) => s.(documents := s.documents[uri := Document("", version, h)])
  }

  function NoHandlerText(filetype: string): (t: string)
    ensures |t| == |NoHandlerPrefix| + |filetype|
    ensures t[..|NoHandlerPrefix|] == NoHandlerPrefix && t[|NoHandlerPrefix|..] == filetype
  {
    NoHandlerPrefix + filetype
  }

  const NoHandlerPrefix: string := "No handler for filetype: "

  /** `update_document`: a tracked document takes the new text and version. */
  function Update<H>(s: ServerState<H>, uri: Uri, version: i32, contents: string): ServerState<H>
  {
    if uri in s.documents then
      s.(documents := s.documents[uri := s.documents[uri].(contents := contents, version := version)])
    else s
  }

  /** What `report_diagnostics` sends for a handler's answer. */
  function ReportEvents(uri: Uri, version: i32, answer: Result<seq<Diagnostic>, HandlerError>): seq<Event>
  {
    match answer
    case Ok(diagnostics) => [Publish(uri, diagnostics, Some(version))]
    case Err(e) => [Publish(uri, [], Some(version)), LogMessage(ErrorMessage, Handlers.ErrorText(e))]
  }

  /** `report_diagnostics`: ask the document's handler and send the answer;
      nothing for an untracked document. */
  function Report<H>(diagnose: (H, string) -> Result<seq<Diagnostic>, HandlerError>, s: ServerState<H>, uri: Uri): ServerState<H>
  {
    if uri in s.documents then
      var doc := s.documents[uri];
      s.(events := s.events + ReportEvents(uri, doc.version, diagnose(doc.handler, doc.contents)))
    else s
  }

  function Close<H>(s: ServerState<H>, uri: Uri): ServerState<H>
  {
    ServerState(s.documents - {uri}, s.events + [Publish(uri, [], None)])
  }

  /** The effect of one notification. */
  function Apply<H>(handlerFor: string -> Option<H>, diagnose: (H, string) -> Result<seq<Diagnostic>, HandlerError>,
                    s: ServerState<H>, n: Notification): ServerState<H>
    requires Acceptable(n)
  {
    match n
    case DidOpen(uri, version, languageId, text) =>
      Report(diagnose, Update(Init(handlerFor, s, uri, version, languageId), uri, version, text), uri)
    case DidChange(uri, version, changes) => Update(s, uri, version, changes[0])
    case DidSave(uri) => Report(diagnose, s, uri)
    case DidClose(uri) => Close(s, uri)
  }

  /** The effect of a sequence of notifications, in order. */
  function Run<H>(handlerFor: string -> Option<H>, diagnose: (H, string) -> Result<seq<Diagnostic>, HandlerError>,
                  s: ServerState<H>, ns: seq<Notification>): ServerState<H>
    requires forall k :: 0 <= k < |ns| ==> Acceptable(ns[k])
  {
    if |ns| == 0 then s
    else Apply(handlerFor, diagnose, Run(handlerFor, diagnose, s, ns[..|ns| - 1]), ns[|ns| - 1])
  }

  // ---------------------------------------------------------------------------
  // Properties of the transitions

  /** The report of a tracked document publishes its diagnostics with its
      current version; a failure publishes an empty list and logs the error
      text. */
  lemma ReportPublishes<H>(diagnose: (H, string) -> Result<seq<Diagnostic>, HandlerError>, s: ServerState<H>, uri: Uri)
    ensures uri !in s.documents ==> Report(diagnose, s, uri) == s
    ensures uri in s.documents ==>
              var doc := s.documents[uri];
              var r := Report(diagnose, s, uri);
              var answer := diagnose(doc.handler, doc.contents);
              && r.documents == s.documents
              && |r.events| > |s.events|
              && r.events[..|s.events|] == s.events
              && r.events[|s.events|] == Publish(uri, if answer.Ok? then answer.value else [], Some(doc.version))
              && (answer.Ok? ==> |r.events| == |s.events| + 1)
              && (answer.Err? ==> r.events[|s.events| + 1..] == [LogMessage(ErrorMessage, Handlers.ErrorText(answer.error))])
  {
  }

  /** Opening a document of a filetype without a handler warns; the update
      and the report that follow find nothing to do unless the uri was
      already tracked. */
  lemma OpenWithoutHandler<H>(handlerFor: string -> Option<H>, diagnose: (H, string) -> Result<seq<Diagnostic>, HandlerError>,
                              s: ServerState<H>, uri: Uri, version: i32, languageId: string, text: string)
    requires handlerFor(languageId).None? && uri !in s.documents
    ensures Apply(handlerFor, diagnose, s, DidOpen(uri, version, languageId, text))
            == s.(events := s.events + [LogMessage(WarningMessage, NoHandlerText(languageId))])
  {
  }

  /** Re-opening a tracked uri with a filetype that has no handler warns,
      and then still updates the entry tracked before, handler and all, and
      reports on it. */
  lemma ReopenWithoutHandler<H>(handlerFor: string -> Option<H>, diagnose: (H, string) -> Result<seq<Diagnostic>, HandlerError>,
                                s: ServerState<H>, uri: Uri, version: i32, languageId: string, text: string)
    requires handlerFor(languageId).None? && uri in s.documents
    ensures var r := Apply(handlerFor, diagnose, s, DidOpen(uri, version, languageId, text));
            var h := s.documents[uri].handler;
            && r.documents == s.documents[uri := Document(text, version, h)]
            && r.events == s.events + [LogMessage(WarningMessage, NoHandlerText(languageId))]
                           + ReportEvents(uri, version, diagnose(h, text))
  {
  }

  /** Opening a document of a filetype with a handler tracks it with the
      opened text and version, replacing what was tracked for that uri, and
      reports on it. */
  lemma OpenWithHandler<H>(handlerFor: string -> Option<H>, diagnose: (H, string) -> Result<seq<Diagnostic>, HandlerError>,
                           s: ServerState<H>, uri: Uri, version: i32, languageId: string, text: string)
    requires handlerFor(languageId).Some?
    ensures var r := Apply(handlerFor, diagnose, s, DidOpen(uri, version, languageId, text));
            var h := handlerFor(languageId).value;
            && r.documents == s.documents[uri := Document(text, version, h)]
            && r.events == s.events + ReportEvents(uri, version, diagnose(h, text))
  {
  }

  /** A change replaces the whole text with the first change's and sends
      nothing; an untracked uri is left untracked. */
  lemma ChangeIsSilent<H>(handlerFor: string -> Option<H>, diagnose: (H, string) -> Result<seq<Diagnostic>, HandlerError>,
                          s: ServerState<H>, uri: Uri, version: i32, changes: seq<string>)
    requires |changes| > 0
    ensures var r := Apply(handlerFor, diagnose, s, DidChange(uri, version, changes));
            && r.events == s.events
            && r.documents.Keys == s.documents.Keys
            && (uri in s.documents ==>
                  r.documents[uri] == Document(changes[0], version, s.documents[uri].handler))
            && (forall u :: u in s.documents && u != uri ==> r.documents[u] == s.documents[u])
  {
  }

  /** A save leaves the documents as they are and only reports. */
  lemma SaveOnlyReports<H>(handlerFor: string -> Option<H>, diagnose: (H, string) -> Result<seq<Diagnostic>, HandlerError>,
                          s: ServerState<H>, uri: Uri)
    ensures var r := Apply(handlerFor, diagnose, s, DidSave(uri));
            && r.documents == s.documents
            && (uri !in s.documents ==> r.events == s.events)
            && (uri in s.documents ==> |r.events| > |s.events|)
  {
  }

  /** A close forgets the document, whether or not it was tracked, and
      always clears its diagnostics with no version. */
  lemma CloseClears<H>(handlerFor: string -> Option<H>, diagnose: (H, string) -> Result<seq<Diagnostic>, HandlerError>,
                       s: ServerState<H>, uri: Uri)
    ensures var r := Apply(handlerFor, diagnose, s, DidClose(uri));
            && uri !in r.documents
            && (forall u :: u != uri ==> (u in r.documents <==> u in s.documents))
            && (forall u :: u in r.documents ==> r.documents[u] == s.documents[u])
            && r.events == s.events + [Publish(uri, [], None)]
  {
  }

  /** Nothing sent is ever taken back: every notification only appends. */
  lemma ApplyAppends<H>(handlerFor: string -> Option<H>, diagnose: (H, string) -> Result<seq<Diagnostic>, HandlerError>,
                        s: ServerState<H>, n: Notification)
    requires Acceptable(n)
    ensures |s.events| <= |Apply(handlerFor, diagnose, s, n).events|
    ensures Apply(handlerFor, diagnose, s, n).events[..|s.events|] == s.events
  {
  }

  lemma {:induction false} RunAppends<H>(handlerFor: string -> Option<H>, diagnose: (H, string) -> Result<seq<Diagnostic>, HandlerError>,
                                         s: ServerState<H>, ns: seq<Notification>)
    requires forall k :: 0 <= k < |ns| ==> Acceptable(ns[k])
    ensures |s.events| <= |Run(handlerFor, diagnose, s, ns).events|
    ensures Run(handlerFor, diagnose, s, ns).events[..|s.events|] == s.events
  {
    if |ns| > 0 {
      var mid := Run(handlerFor, diagnose, s, ns[..|ns| - 1]);
      RunAppends(handlerFor, diagnose, s, ns[..|ns| - 1]);
      ApplyAppends(handlerFor, diagnose, mid, ns[|ns| - 1]);
    }
  }

  /** Only an open with a handler starts tracking a uri. */
  lemma ApplyTracks<H>(handlerFor: string -> Option<H>, diagnose: (H, string) -> Result<seq<Diagnostic>, HandlerError>,
                       s: ServerState<H>, n: Notification, uri: Uri)
    requires Acceptable(n)
    requires uri in Apply(handlerFor, diagnose, s, n).documents
    ensures uri in s.documents || (n.DidOpen? && n.uri == uri && handlerFor(n.languageId).Some?)
  {
  }

  /** A uri tracked after a run was tracked before it or opened during it,
      with a filetype that has a handler. */
  lemma {:induction false} RunTracks<H>(handlerFor: string -> Option<H>, diagnose: (H, string) -> Result<seq<Diagnostic>, HandlerError>,
                                        s: ServerState<H>, ns: seq<Notification>, uri: Uri)
    requires forall k :: 0 <= k < |ns| ==> Acceptable(ns[k])
    requires uri in Run(handlerFor, diagnose, s, ns).documents
    ensures uri in s.documents
            || exists k :: 0 <= k < |ns| && ns[k].DidOpen? && ns[k].uri == uri && handlerFor(ns[k].languageId).Some?
  {
    if |ns| > 0 {
      var init := ns[..|ns| - 1];
      assert forall k :: 0 <= k < |init| ==> init[k] == ns[k];
      ApplyTracks(handlerFor, diagnose, Run(handlerFor, diagnose, s, init), ns[|ns| - 1], uri);
      if uri in Run(handlerFor, diagnose, s, init).documents {
        RunTracks(handlerFor, diagnose, s, init, uri);
      }
    }
  }

  /** A document opened and then closed is no longer tracked, and the last
      thing sent is the clearing of its diagnostics. */
  lemma OpenThenClose<H>(handlerFor: string -> Option<H>, diagnose: (H, string) -> Result<seq<Diagnostic>, HandlerError>,
                         s: ServerState<H>, uri: Uri, version: i32, languageId: string, text: string)
    ensures var r := Run(handlerFor, diagnose, s, [DidOpen(uri, version, languageId, text), DidClose(uri)]);
            && uri !in r.documents
            && r.events[|r.events| - 1] == Publish(uri, [], None)
  {
    var ns := [DidOpen(uri, version, languageId, text), DidClose(uri)];
    assert ns[..1] == [DidOpen(uri, version, languageId, text)];
    assert ns[..1][..0] == [];
  }

  // ---------------------------------------------------------------------------
  // The server

  /** The `initialize` answer: the capabilities the server advertises and
      its name. */
  datatype InitializeResult = InitializeResult(capabilities: Capabilities.Capabilities, serverName: string)

  /** `initialize`: UTF-16 positions, full-text synchronisation and a
      workspace capability with no sub-options. */
  function Initialize(): (r: InitializeResult)
    ensures r.capabilities.Keys == {Capabilities.PositionEncoding, Capabilities.TextDocumentSync, Capabilities.Workspace}
    ensures r.capabilities[Capabilities.PositionEncoding] == Capabilities.Utf16
    ensures r.capabilities[Capabilities.TextDocumentSync] == Capabilities.Full
    ensures r.serverName == "any_ls"
  {
    InitializeResult(
      map[Capabilities.PositionEncoding := Capabilities.Utf16,
          Capabilities.TextDocumentSync := Capabilities.Full,
          Capabilities.Workspace := Capabilities.Opaque("no workspace folders, no file operations")],
      "any_ls")
  }

  /** The server: the handler lookup by filetype and the handlers'
      computation are given when it is built. */
  class Backend<H> {
    const handlerFor: string -> Option<H>
    const diagnose: (H, string) -> Result<seq<Diagnostic>, HandlerError>
    var documents: map<Uri, Document<H>>
    var events: seq<Event>

    function State(): ServerState<H>
      reads this
    {
      ServerState(documents, events)
    }

    constructor (handlerFor: string -> Option<H>, diagnose: (H, string) -> Result<seq<Diagnostic>, HandlerError>)
      ensures this.handlerFor == handlerFor && this.diagnose == diagnose
      ensures documents == map[] && events == []
    {
      this.handlerFor := handlerFor;
      this.diagnose := diagnose;
      documents := map[];
      events := [];
    }

    method InitHandler(uri: Uri, version: i32, filetype: string)
      modifies this
      ensures State() == Init(handlerFor, old(State()), uri, version, filetype)
    {
      var handler := handlerFor(filetype);
      if handler.None? {
        events := events + [LogMessage(WarningMessage, NoHandlerText(filetype))];
        return;
      }
      documents := documents[uri := Document("", version, handler.value)];
    }

    method UpdateDocument(uri: Uri, version: i32, contents: string)
      modifies this
      ensures State() == Update(old(State()), uri, version, contents)
    {
      if uri in documents {
        var document := documents[uri];
        documents := documents[uri := document.(contents := contents, version := version)];
      }
    }

    method ReportDiagnostics(uri: Uri)
      modifies this
      ensures State() == Report(diagnose, old(State()), uri)
    {
      if uri !in documents {
        return;
      }
      var document := documents[uri];
      var version := document.version;
      var handlerOut := diagnose(document.handler, document.contents);
      match handlerOut {
        case Ok(diagnostics) =>
          events := events + [Publish(uri, diagnostics, Some(version))];
        case Err(err) =>
          events := events + [Publish(uri, [], Some(version))];
          events := events + [LogMessage(ErrorMessage, Handlers.ErrorText(err))];
      }
    }

    method Initialized()
      modifies this
      ensures documents == old(documents)
      ensures events == old(events) + [LogMessage(InfoMessage, "server initialized!")]
    {
      events := events + [LogMessage(InfoMessage, "server initialized!")];
    }

    method DidOpen(uri: Uri, version: i32, languageId: string, text: string)
      modifies this
      ensures State() == Apply(handlerFor, diagnose, old(State()), Notification.DidOpen(uri, version, languageId, text))
    {
      InitHandler(uri, version, languageId);
      UpdateDocument(uri, version, text);
      ReportDiagnostics(uri);
    }

    method DidChange(uri: Uri, version: i32, changes: seq<string>)
      requires |changes| > 0
      modifies this
      ensures State() == Apply(handlerFor, diagnose, old(State()), Notification.DidChange(uri, version, changes))
    {
      UpdateDocument(uri, version, changes[0]);
    }

    method DidSave(uri: Uri)
      modifies this
      ensures State() == Apply(handlerFor, diagnose, old(State()), Notification.DidSave(uri))
    {
      ReportDiagnostics(uri);
    }

    method DidClose(uri: Uri)
      modifies this
      ensures State() == Apply(handlerFor, diagnose, old(State()), Notification.DidClose(uri))
    {
      documents := documents - {uri};
      events := events + [Publish(uri, [], None)];
    }
  }
}
