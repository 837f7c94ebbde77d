/** The `just` handler: which filetypes it accepts, the capabilities it
    offers, and how it turns the output of `just --dry-run` into
    diagnostics. The output is matched against
    `(\w+):\s(.*)\n.*——▶.*:(\d+):(\d+)`; this module replaces the regular
    expression engine by a hand-written matcher (`MatchAt`, `FindMatch`) and
    proves that it finds the same match, with the same groups, as the
    leftmost-first, greedy semantics of the expression (`RegexShape`). */
module Just {
  import opened Types
  import opened Text
  import Capabilities

  /** An instance of the handler. The version string comes from probing
      `just --version`; the temporary file it writes into is not modelled. */
  datatype Just = Just(version: string)

  /** The filetypes the handler diagnoses. */
  function FiletypeSupported(filetype: string): (r: bool)
    ensures r <==> filetype == "just" || filetype == "justfile"
  {
    filetype in {"just", "justfile"}
  }

  /** The handler offers pull diagnostics and nothing else. */
  function GetCapabilities(): (c: Capabilities.Capabilities)
    ensures c.Keys == {Capabilities.DiagnosticProvider}
  {
    map[Capabilities.DiagnosticProvider := Capabilities.Opaque("diagnostic options")]
  }

  /** What running the tool on the document produced: one of the I/O steps
      (truncating or writing the temporary file, spawning the process,
      decoding its output as UTF-8) failed with a message, or the process
      exited, successfully or not, with the given outputs. */
  datatype ToolOutcome =
    | IoFailure(message: string)
    | Exited(success: bool, stdout: string, stderr: string)

  /** The handler's diagnostics for one run of the tool. */
  function UpdateDiagnostics(outcome: ToolOutcome): (r: Result<seq<Diagnostic>, HandlerError>)
    ensures r.Err? <==> outcome.IoFailure?
    ensures r.Err? ==> r.error == Log(outcome.message)
    ensures r.Ok? ==> |r.value| <= 1
    ensures outcome.Exited? && outcome.success ==> r == Ok([])
    ensures outcome.Exited? && !outcome.success ==> r == Ok(ParseStderr(outcome.stderr))
  {
    match outcome
    case IoFailure(msg) => Err(Log(msg))
    case Exited(success, out, err) =>
      if success then Ok(ParseStdout(out)) else Ok(ParseStderr(err))
  }

  /** A successful dry run reports nothing. */
  function ParseStdout(contents: string): (ds: seq<Diagnostic>)
    ensures ds == []
  {
    []
  }

  /** Only the word `error` has a severity; every other word has none. */
  function ParseSeverity(word: string): (s: Option<Severity>)
    ensures s.Some? <==> word == "error"
    ensures s.Some? ==> s.value == Error
  {
    if word == "error" then Some(Error) else None
  }

  // ---------------------------------------------------------------------------
  // The location marker

  /** The marker `——▶` (two em dashes and a right-pointing triangle). */
  const Arrow: string := "\U{2014}\U{2014}\U{25B6}"

  predicate ArrowAt(t: string, a: nat) {
    a + 3 <= |t| && t[a] == Arrow[0] && t[a + 1] == Arrow[1] && t[a + 2] == Arrow[2]
  }

  /** The first marker lying wholly inside `t[lo..hi]`. */
  function FirstArrow(t: string, lo: nat, hi: nat): (r: Option<nat>)
    requires hi <= |t|
    ensures r.Some? ==> lo <= r.value && r.value + 3 <= hi && ArrowAt(t, r.value)
    ensures r.None? ==> forall a :: lo <= a && a + 3 <= hi ==> !ArrowAt(t, a)
    decreases hi - lo
  {
    if lo + 3 > hi then None
    else if ArrowAt(t, lo) then Some(lo)
    else FirstArrow(t, lo + 1, hi)
  }

  /** `:(\d+):(\d+)` with its first colon at `p`. */
  predicate LocationAt(t: string, p: nat) {
    p < |t| && t[p] == ':'
    && var q := DigitEnd(t, p + 1);
       p + 1 < q < |t| && t[q] == ':' && DigitEnd(t, q + 1) > q + 1
  }

  /** A location preceded by a marker, both inside one stretch of text. */
  datatype Location = Location(arrow: nat, colon: nat)

  /** The last colon in `t[lo..hi]` that starts a location and has a marker
      before it in `t[lo..]`: the choice of the two greedy `.*`. */
  function LastLocation(t: string, lo: nat, hi: nat): (r: Option<Location>)
    requires lo <= hi <= |t|
    ensures r.Some? ==> lo <= r.value.colon < hi && LocationAt(t, r.value.colon)
                        && FirstArrow(t, lo, r.value.colon) == Some(r.value.arrow)
    ensures r.Some? ==> forall p :: r.value.colon < p < hi ==>
                          !(LocationAt(t, p) && FirstArrow(t, lo, p).Some?)
    ensures r.None? ==> forall p :: lo <= p < hi ==>
                          !(LocationAt(t, p) && FirstArrow(t, lo, p).Some?)
    decreases hi - lo
  {
    if hi == lo then None
    else if LocationAt(t, hi - 1) && FirstArrow(t, lo, hi - 1).Some? then
      Some(Location(FirstArrow(t, lo, hi - 1).value, hi - 1))
    else LastLocation(t, lo, hi - 1)
  }

  // ---------------------------------------------------------------------------
  // The match

  /** A match of the expression: the group boundaries and the four groups. */
  datatype Match = Match(
    start: nat, colon: nat, messageEnd: nat, arrow: nat,
    location: nat, lineEnd: nat, columnEnd: nat,
    severity: string, message: string, line: string, column: string)

  /** `(\w+):\s` matches `t[s..colon + 2]`. */
  ghost predicate WordPart(t: string, s: nat, colon: nat) {
    && s < colon && colon + 1 < |t|
    && (forall k :: s <= k < colon ==> IsWordChar(t[k]))
    && t[colon] == ':' && IsWhitespace(t[colon + 1])
  }

  /** `(.*)\n` matches `t[colon + 2..msgEnd + 1]`. */
  ghost predicate MessagePart(t: string, colon: nat, msgEnd: nat) {
    && colon + 2 <= msgEnd < |t| && t[msgEnd] == '\n'
    && (forall k :: colon + 2 <= k < msgEnd ==> t[k] != '\n')
  }

  /** `.*——▶.*:(\d+):(\d+)` matches `t[msgEnd + 1..r]`, all on one line,
      with the marker at `arrow` and the colons at `p` and `q`. */
  ghost predicate MarkerPart(t: string, msgEnd: nat, arrow: nat, p: nat, q: nat, r: nat) {
    && msgEnd + 1 <= arrow && arrow + 3 <= p && ArrowAt(t, arrow)
    && p + 1 < q && q + 1 < r <= |t|
    && t[p] == ':' && (forall k :: p < k < q ==> IsDigit(t[k]))
    && t[q] == ':' && (forall k :: q < k < r ==> IsDigit(t[k]))
    && (forall k :: msgEnd < k < r ==> t[k] != '\n')
  }

  /** Reference semantics: the expression matches `t[s..r]` with the severity
      word `t[s..colon]`, the message `t[colon + 2..msgEnd]`, the marker at
      `arrow` and the groups `t[p + 1..q]` and `t[q + 1..r]`. `.` does not
      match a line feed; `\s` does. */
  ghost predicate RegexShape(t: string, s: nat, colon: nat, msgEnd: nat,
                             arrow: nat, p: nat, q: nat, r: nat)
  {
    WordPart(t, s, colon) && MessagePart(t, colon, msgEnd) && MarkerPart(t, msgEnd, arrow, p, q, r)
  }

  /** Where the severity word ends and where the message line ends. */
  datatype Head = Head(colon: nat, messageEnd: nat)

  /** `(\w+):\s(.*)\n` at `s`. The word and the message are forced: the
      word is the whole run of word characters at `s`, and `.*` cannot pass
      a line feed. */
  function HeadAt(t: string, s: nat): (h: Option<Head>)
    ensures h.Some? ==> WordPart(t, s, h.value.colon) && MessagePart(t, h.value.colon, h.value.messageEnd)
  {
    if s >= |t| then None
    else
      var colon := WordEnd(t, s);
      if colon == s || colon + 1 >= |t| || t[colon] != ':' || !IsWhitespace(t[colon + 1]) then None
      else
        var msgEnd := Find(t, '\n', colon + 2);
        if msgEnd == |t| then None else Some(Head(colon, msgEnd))
  }

  /** Every way `(\w+):\s(.*)\n` can match at `s` is the one `HeadAt` finds. */
  lemma HeadAtComplete(t: string, s: nat, colon: nat, msgEnd: nat)
    requires WordPart(t, s, colon) && MessagePart(t, colon, msgEnd)
    ensures HeadAt(t, s) == Some(Head(colon, msgEnd))
  {
    assert WordEnd(t, s) == colon;
    FindIsUnique(t, '\n', colon + 2, msgEnd);
  }

  /** The marker and the location chosen on the line after `msgEnd`, and
      the ends of the two digit groups. */
  datatype Located = Located(arrow: nat, location: nat, lineEnd: nat, columnEnd: nat)

  /** `.*——▶.*:(\d+):(\d+)` on the line that starts after `msgEnd`, with the
      greedy choice of the last location on that line. */
  function LocateAfter(t: string, msgEnd: nat): (l: Option<Located>)
    requires msgEnd < |t|
    ensures l.Some? ==> MarkerPart(t, msgEnd, l.value.arrow, l.value.location, l.value.lineEnd, l.value.columnEnd)
  {
    var lineEnd := Find(t, '\n', msgEnd + 1);
    match LastLocation(t, msgEnd + 1, lineEnd)
    case None => None
    case Some(loc) =>
      var q := DigitEnd(t, loc.colon + 1);
      var r := DigitEnd(t, q + 1);
      assert r <= lineEnd;
      Some(Located(loc.arrow, loc.colon, q, r))
  }

  /** Every way the marker line can match is found by `LocateAfter`, at no
      later location (and, at the same location, with no longer column
      group): the greedy preference of the expression. */
  lemma LocateAfterComplete(t: string, msgEnd: nat, arrow: nat, p: nat, q: nat, r: nat)
    requires MarkerPart(t, msgEnd, arrow, p, q, r)
    ensures LocateAfter(t, msgEnd).Some?
    ensures var l := LocateAfter(t, msgEnd).value;
            p < l.location || (p == l.location && q == l.lineEnd && r <= l.columnEnd)
  {
    var lineEnd := Find(t, '\n', msgEnd + 1);
    assert r <= lineEnd;
    assert DigitEnd(t, p + 1) == q;
    assert DigitEnd(t, q + 1) >= r;
    assert LocationAt(t, p);
    assert FirstArrow(t, msgEnd + 1, p).Some?;
  }

  /** When the column group runs to the end of its line, the marker line
      matches exactly as described. */
  lemma LocateAfterExact(t: string, msgEnd: nat, arrow: nat, p: nat, q: nat, r: nat)
    requires MarkerPart(t, msgEnd, arrow, p, q, r)
    requires r == |t| || t[r] == '\n'
    ensures LocateAfter(t, msgEnd).Some?
    ensures var l := LocateAfter(t, msgEnd).value;
            l.location == p && l.lineEnd == q && l.columnEnd == r
  {
    LocateAfterComplete(t, msgEnd, arrow, p, q, r);
    FindIsUnique(t, '\n', msgEnd + 1, r);
    assert DigitEnd(t, q + 1) == r;
    forall loc | p < loc < r ensures !LocationAt(t, loc) {
      if loc == q {
        assert DigitEnd(t, q + 1) == r;
      } else {
        assert IsDigit(t[loc]);
      }
    }
  }

  /** A run of digits in `t` gives a slice of digits. */
  lemma DigitsSlice(t: string, lo: nat, hi: nat)
    requires lo <= hi <= |t|
    requires forall k :: lo <= k < hi ==> IsDigit(t[k])
    ensures AllDigits(t[lo..hi])
  {
    var piece := t[lo..hi];
    assert forall k :: 0 <= k < |piece| ==> piece[k] == t[lo + k];
  }

  /** The match that starts at `s`, if any. The severity word and the
      message are forced; the location is the greedy choice. */
  function MatchAt(t: string, s: nat): (m: Option<Match>)
    ensures m.Some? ==> m.value.start == s
    ensures m.Some? ==> AllDigits(m.value.line) && AllDigits(m.value.column)
  {
    match HeadAt(t, s)
    case None => None
    case Some(h) =>
      match LocateAfter(t, h.messageEnd)
      case None => None
      case Some(l) =>
        DigitsSlice(t, l.location + 1, l.lineEnd);
        DigitsSlice(t, l.lineEnd + 1, l.columnEnd);
        Some(Match(s, h.colon, h.messageEnd, l.arrow, l.location, l.lineEnd, l.columnEnd,
                   t[s..h.colon], t[h.colon + 2..h.messageEnd],
                   t[l.location + 1..l.lineEnd], t[l.lineEnd + 1..l.columnEnd]))
  }

  /** The leftmost match: the first start position, from `s` on, at which
      the expression matches. */
  function FindMatch(t: string, s: nat): (m: Option<Match>)
    ensures m.Some? ==> s <= m.value.start && MatchAt(t, m.value.start) == m
    ensures m.Some? ==> forall s' :: s <= s' < m.value.start ==> MatchAt(t, s').None?
    ensures m.None? ==> forall s' :: s <= s' ==> MatchAt(t, s').None?
    decreases |t| - s
  {
    if s >= |t| then None
    else match MatchAt(t, s)
      case Some(m) => Some(m)
      case None => FindMatch(t, s + 1)
  }

  /** What `MatchAt` returns is a match of the expression, and its groups
      are the stated slices of the text. */
  lemma MatchAtSound(t: string, s: nat)
    requires MatchAt(t, s).Some?
    ensures var m := MatchAt(t, s).value;
            RegexShape(t, s, m.colon, m.messageEnd, m.arrow, m.location, m.lineEnd, m.columnEnd)
            && m.severity == t[s..m.colon] && m.message == t[m.colon + 2..m.messageEnd]
            && m.line == t[m.location + 1..m.lineEnd] && m.column == t[m.lineEnd + 1..m.columnEnd]
  {
  }

  /** Every match of the expression that starts at `s` is found by
      `MatchAt`, with the same severity word and message, and no later
      location (and, at the same location, no longer column group) than
      the one `MatchAt` picks: the greedy preference of the expression. */
  lemma MatchAtComplete(t: string, s: nat, colon: nat, msgEnd: nat,
                        arrow: nat, p: nat, q: nat, r: nat)
    requires RegexShape(t, s, colon, msgEnd, arrow, p, q, r)
    ensures MatchAt(t, s).Some?
    ensures var m := MatchAt(t, s).value;
            m.colon == colon && m.messageEnd == msgEnd
            && (p < m.location || (p == m.location && q == m.lineEnd && r <= m.columnEnd))
  {
    HeadAtComplete(t, s, colon, msgEnd);
    LocateAfterComplete(t, msgEnd, arrow, p, q, r);
  }

  /** When the column group runs to the end of its line, the match at `s`
      is exactly the one described. */
  lemma MatchAtExact(t: string, s: nat, colon: nat, msgEnd: nat,
                     arrow: nat, p: nat, q: nat, r: nat)
    requires RegexShape(t, s, colon, msgEnd, arrow, p, q, r)
    requires r == |t| || t[r] == '\n'
    ensures MatchAt(t, s).Some?
    ensures var m := MatchAt(t, s).value;
            m.colon == colon && m.messageEnd == msgEnd
            && m.location == p && m.lineEnd == q && m.columnEnd == r
  {
    HeadAtComplete(t, s, colon, msgEnd);
    LocateAfterExact(t, msgEnd, arrow, p, q, r);
  }

  /** A match at `s` whose groups are given pieces of text has those pieces
      as the groups `MatchAt` reports. */
  lemma MatchAtGroups(t: string, s: nat, colon: nat, msgEnd: nat,
                      arrow: nat, p: nat, q: nat, r: nat,
                      word: string, msg: string, d1: string, d2: string)
    requires RegexShape(t, s, colon, msgEnd, arrow, p, q, r)
    requires r == |t| || t[r] == '\n'
    requires t[s..colon] == word && t[colon + 2..msgEnd] == msg
    requires t[p + 1..q] == d1 && t[q + 1..r] == d2
    ensures MatchAt(t, s).Some?
    ensures var m := MatchAt(t, s).value;
            m.severity == word && m.message == msg && m.line == d1 && m.column == d2
  {
    MatchAtExact(t, s, colon, msgEnd, arrow, p, q, r);
    MatchAtSound(t, s);
  }

  /** The text matches when the expression has no match anywhere. */
  ghost predicate NoRegexMatch(t: string) {
    forall s, colon, msgEnd, arrow, p, q, r ::
      !RegexShape(t, s, colon, msgEnd, arrow, p, q, r)
  }

  /** `FindMatch` is the leftmost-first match of the expression: when it
      finds one, nothing matches further left; when it finds none, the
      expression matches nowhere. */
  lemma FindMatchIsLeftmost(t: string)
    ensures FindMatch(t, 0).Some? ==>
              var m := FindMatch(t, 0).value;
              RegexShape(t, m.start, m.colon, m.messageEnd, m.arrow, m.location, m.lineEnd, m.columnEnd)
              && forall s, colon, msgEnd, arrow, p, q, r ::
                   RegexShape(t, s, colon, msgEnd, arrow, p, q, r) ==> m.start <= s
    ensures FindMatch(t, 0).None? <==> NoRegexMatch(t)
  {
    forall s, colon, msgEnd, arrow, p, q, r | RegexShape(t, s, colon, msgEnd, arrow, p, q, r)
      ensures MatchAt(t, s).Some?
    {
      MatchAtComplete(t, s, colon, msgEnd, arrow, p, q, r);
    }
    if FindMatch(t, 0).Some? {
      var m := FindMatch(t, 0).value;
      MatchAtSound(t, m.start);
    }
  }

  // ---------------------------------------------------------------------------
  // From the match to a diagnostic

  predicate AllDigits(s: string) {
    forall k :: 0 <= k < |s| ==> IsDigit(s[k])
  }

  /** The value of a string of decimal digits. */
  function DigitsValue(s: string): nat
    requires AllDigits(s)
  {
    if |s| == 0 then 0
    else
      var last := s[|s| - 1];
      assert IsDigit(last);
      DigitsValue(s[..|s| - 1]) * 10 + (last as int - '0' as int)
  }

  /** `str::parse::<u32>` on a run of digits, with `unwrap_or(0)`: a value
      that does not fit in 32 bits becomes 0. */
  function ParseU32(s: string): (n: u32)
    requires AllDigits(s)
    ensures DigitsValue(s) <= U32_MAX ==> n == DigitsValue(s)
    ensures DigitsValue(s) > U32_MAX ==> n == 0
  {
    if DigitsValue(s) <= U32_MAX then DigitsValue(s) else 0
  }

  /** The decimal representation of `n`, without leading zeros. */
  function Decimal(n: nat): (s: string)
    ensures |s| >= 1
    ensures AllDigits(s)
  {
    var d := ['0' + (n % 10) as char];
    if n < 10 then d else Decimal(n / 10) + d
  }

  /** Parsing the decimal representation of a 32-bit number gives it back. */
  lemma {:induction false} ParseDecimal(n: nat)
    ensures DigitsValue(Decimal(n)) == n
    ensures n <= U32_MAX ==> ParseU32(Decimal(n)) == n
  {
    var s := Decimal(n);
    if n >= 10 {
      ParseDecimal(n / 10);
      assert s[..|s| - 1] == Decimal(n / 10);
    }
  }

  /** A line or column number one past the largest 32-bit value is read as 0. */
  lemma ParseU32Overflow()
    ensures ParseU32(Decimal(U32_MAX + 1)) == 0
  {
    ParseDecimal(U32_MAX + 1);
  }

  /** `u32::saturating_sub(1)`. */
  function SaturatingDecrement(x: u32): (r: u32)
    ensures x >= 1 ==> r == x - 1
    ensures x == 0 ==> r == 0
  {
    if x == 0 then 0 else x - 1
  }

  /** The range underlining the single character at the tool's 1-based
      `line` and `column`. */
  function CharacterRange(line: u32, column: u32): (r: Range)
    ensures r.start.line == r.end.line
    ensures line >= 1 ==> r.start.line == line - 1
    ensures line == 0 ==> r.start.line == 0
    ensures r.end.character == column
    ensures column >= 1 ==> r.start.character == column - 1
    ensures column == 0 ==> r.start.character == 0 && r.end.character == 0
  {
    var l := SaturatingDecrement(line);
    Range(Position(l, SaturatingDecrement(column)), Position(l, column))
  }

  /** The diagnostic reported for a match. */
  function DiagnosticOf(m: Match): (d: Diagnostic)
    requires AllDigits(m.line) && AllDigits(m.column)
    ensures d.range == CharacterRange(ParseU32(m.line), ParseU32(m.column))
    ensures d.severity == ParseSeverity(m.severity)
    ensures d.message == m.message
  {
    Diagnostic(CharacterRange(ParseU32(m.line), ParseU32(m.column)),
               ParseSeverity(m.severity), m.message)
  }

  /** `Just::parse_stderr`: exactly one diagnostic when the expression
      matches the tool's error output, none otherwise; it never fails. */
  function ParseStderr(contents: string): (ds: seq<Diagnostic>)
    ensures |ds| <= 1
    ensures ds == [] <==> FindMatch(contents, 0).None?
    ensures ds != [] ==> var m := FindMatch(contents, 0).value;
              ds[0].message == m.message && ds[0].severity == ParseSeverity(m.severity)
              && ds[0].range == CharacterRange(ParseU32(m.line), ParseU32(m.column))
  {
    match FindMatch(contents, 0)
    case None => []
    case Some(m) => [DiagnosticOf(m)]
  }

  /** The error output yields no diagnostic exactly when the expression
      matches nowhere in it. */
  lemma ParseStderrEmptyIffNoMatch(t: string)
    ensures ParseStderr(t) == [] <==> NoRegexMatch(t)
  {
    FindMatchIsLeftmost(t);
  }

  /** The diagnostic's message is the rest of the severity line after the
      word, its colon and one white-space character, up to the line feed. */
  lemma ParseStderrMessage(t: string)
    requires ParseStderr(t) != []
    ensures var m := FindMatch(t, 0).value;
            ParseStderr(t)[0].message == t[m.colon + 2..m.messageEnd]
            && '\n' !in ParseStderr(t)[0].message
  {
    var m := FindMatch(t, 0).value;
    MatchAtSound(t, m.start);
    NotInSlice(t, '\n', m.colon + 2, m.messageEnd);
  }
}

module JustReports {
  import opened Types
  import opened Text
  import opened Just

  /** The layout of `just`'s error report: `word: message`, then a line with
      the marker and `path:LINE:COLUMN`, then anything on later lines. */
  function Report(word: string, msg: string, lead: string, path: string,
                  line: nat, column: nat, rest: string): string
  {
    Header(word, msg) + MarkerLine(lead, path, Decimal(line), Decimal(column), rest)
  }

  function Header(word: string, msg: string): string {
    word + ": " + msg + "\n"
  }

  function MarkerLine(lead: string, path: string, d1: string, d2: string, rest: string): string {
    MarkedPath(lead, path) + Numbers(d1, d2) + rest
  }

  function MarkedPath(lead: string, path: string): string {
    lead + Arrow + path
  }

  function Numbers(d1: string, d2: string): string {
    ":" + d1 + ":" + d2
  }

  /** A slice inside the left operand of a concatenation. */
  lemma SliceLeft(x: string, y: string, i: nat, j: nat)
    requires i <= j <= |x|
    ensures (x + y)[i..j] == x[i..j]
  {
  }

  /** A slice inside the right operand of a concatenation. */
  lemma SliceRight(x: string, y: string, i: nat, j: nat)
    requires i <= j <= |y|
    ensures (x + y)[|x| + i..|x| + j] == y[i..j]
  {
  }

  lemma HeaderSlices(word: string, msg: string)
    ensures var h := Header(word, msg);
            var colon := |word|;
            && |h| == colon + 3 + |msg|
            && h[0..colon] == word && h[colon] == ':' && h[colon + 1] == ' '
            && h[colon + 2..|h| - 1] == msg && h[|h| - 1] == '\n'
  {
    var h := Header(word, msg);
    assert h == ((word + ": ") + msg) + "\n";
    SliceLeft(word + ": ", msg + "\n", 0, |word|);
    assert h == (word + ": ") + (msg + "\n");
    SliceRight(word + ": ", msg + "\n", 0, |msg|);
    assert h[0..|word|] == word;
    assert h[|word| + 2..|h| - 1] == (msg + "\n")[0..|msg|];
  }

  lemma MarkedPathSlices(lead: string, path: string)
    ensures var u := MarkedPath(lead, path);
            var a := |lead|;
            && |u| == a + 3 + |path|
            && u[0..a] == lead && u[a..a + 3] == Arrow && u[a + 3..] == path
  {
    var u := MarkedPath(lead, path);
    assert u == (lead + Arrow) + path;
    SliceLeft(lead + Arrow, path, 0, |lead|);
    SliceLeft(lead + Arrow, path, |lead|, |lead| + 3);
    SliceRight(lead + Arrow, path, 0, |path|);
  }

  lemma NumbersSlices(d1: string, d2: string)
    ensures var v := Numbers(d1, d2);
            && |v| == 2 + |d1| + |d2|
            && v[0] == ':' && v[1..1 + |d1|] == d1 && v[1 + |d1|] == ':' && v[2 + |d1|..] == d2
  {
    var v := Numbers(d1, d2);
    assert v == (":" + d1) + (":" + d2);
    SliceRight(":", d1 + ":" + d2, 0, |d1|);
    assert v == ":" + (d1 + ":" + d2);
    SliceRight(":" + d1 + ":", d2, 0, |d2|);
    assert v == (":" + d1 + ":") + d2;
  }

  /** A slice of a slice is a slice. */
  lemma SliceOfSlice(x: string, i: nat, j: nat, k: nat, l: nat)
    requires i <= j <= |x| && k <= l <= j - i
    ensures x[i..j][k..l] == x[i + k..i + l]
  {
    assert forall n :: 0 <= n < l - k ==> x[i..j][k..l][n] == x[i + k + n];
  }

  lemma MarkerSlices(lead: string, path: string, d1: string, d2: string, rest: string)
    ensures var l := MarkerLine(lead, path, d1, d2, rest);
            var a := |lead|;
            var p := a + 3 + |path|;
            var q := p + 1 + |d1|;
            var r := q + 1 + |d2|;
            && |l| == r + |rest|
            && l[0..a] == lead && l[a..a + 3] == Arrow && l[a + 3..p] == path
            && l[p] == ':' && l[p + 1..q] == d1 && l[q] == ':'
            && l[q + 1..r] == d2 && l[r..] == rest
  {
    var a := |lead|;
    var p := a + 3 + |path|;
    var q := p + 1 + |d1|;
    var r := q + 1 + |d2|;
    var u, v := MarkedPath(lead, path), Numbers(d1, d2);
    var l := MarkerLine(lead, path, d1, d2, rest);
    MarkedPathSlices(lead, path);
    NumbersSlices(d1, d2);
    assert l == (u + v) + rest;
    SliceRight(u + v, rest, 0, |rest|);
    assert l[r..] == rest;
    SliceLeft(u + v, rest, 0, p);
    SliceLeft(u + v, rest, p, r);
    SliceLeft(u, v, 0, p);
    SliceRight(u, v, 0, |v|);
    var lu, lv := l[0..p], l[p..r];
    assert lu == u && lv == v;
    SliceOfSlice(l, 0, p, 0, a);
    SliceOfSlice(l, 0, p, a, a + 3);
    SliceOfSlice(l, 0, p, a + 3, p);
    SliceOfSlice(l, p, r, 1, 1 + |d1|);
    SliceOfSlice(l, p, r, 2 + |d1|, |v|);
    assert l[p] == lv[0] && l[q] == lv[1 + |d1|];
    assert u[a + 3..p] == u[a + 3..];
    assert v[2 + |d1|..|v|] == v[2 + |d1|..];
  }

  /** `t` is laid out as a report of the given pieces: each piece is the
      slice of `t` at its offset. */
  predicate Laid(t: string, word: string, msg: string, lead: string, path: string,
                 d1: string, d2: string, rest: string)
  {
    var colon := |word|;
    var msgEnd := colon + 2 + |msg|;
    var arrow := msgEnd + 1 + |lead|;
    var p := arrow + 3 + |path|;
    var q := p + 1 + |d1|;
    var r := q + 1 + |d2|;
    && |t| == r + |rest|
    && t[0..colon] == word && t[colon] == ':' && t[colon + 1] == ' '
    && t[colon + 2..msgEnd] == msg && t[msgEnd] == '\n'
    && t[msgEnd + 1..arrow] == lead && t[arrow..arrow + 3] == Arrow
    && t[arrow + 3..p] == path && t[p] == ':'
    && t[p + 1..q] == d1 && t[q] == ':'
    && t[q + 1..r] == d2 && t[r..] == rest
  }

  lemma ReportSlices(word: string, msg: string, lead: string, path: string,
                     d1: string, d2: string, rest: string)
    ensures Laid(Header(word, msg) + MarkerLine(lead, path, d1, d2, rest),
                 word, msg, lead, path, d1, d2, rest)
  {
    var h, l := Header(word, msg), MarkerLine(lead, path, d1, d2, rest);
    HeaderSlices(word, msg);
    MarkerSlices(lead, path, d1, d2, rest);
    var a := |lead|;
    var p := a + 3 + |path|;
    var q := p + 1 + |d1|;
    var r := q + 1 + |d2|;
    SliceLeft(h, l, 0, |word|);
    SliceLeft(h, l, |word| + 2, |h| - 1);
    SliceRight(h, l, 0, a);
    SliceRight(h, l, a, a + 3);
    SliceRight(h, l, a + 3, p);
    SliceRight(h, l, p + 1, q);
    SliceRight(h, l, q + 1, r);
    SliceRight(h, l, r, |l|);
    assert (h + l)[|h| + r..] == (h + l)[|h| + r..|h| + |l|];
    assert (h + l)[|h| + p] == l[p] && (h + l)[|h| + q] == l[q];
  }

  /** Every character of `t[lo..hi]` is one of `piece`. */
  lemma SliceChars(t: string, lo: nat, hi: nat, piece: string)
    requires lo <= hi <= |t| && t[lo..hi] == piece
    ensures forall k :: lo <= k < hi ==> t[k] in piece
  {
    forall k | lo <= k < hi ensures t[k] in piece {
      assert t[k] == piece[k - lo];
    }
  }

  lemma ReportWordPart(t: string, word: string, msg: string, lead: string, path: string,
                       d1: string, d2: string, rest: string)
    requires Laid(t, word, msg, lead, path, d1, d2, rest)
    requires |word| > 0 && forall k :: 0 <= k < |word| ==> IsWordChar(word[k])
    ensures WordPart(t, 0, |word|)
  {
    var colon := |word|;
    forall k | 0 <= k < colon ensures IsWordChar(t[k]) {
      assert t[k] == t[0..colon][k];
    }
  }

  lemma ReportMessagePart(t: string, word: string, msg: string, lead: string, path: string,
                          d1: string, d2: string, rest: string)
    requires Laid(t, word, msg, lead, path, d1, d2, rest)
    requires '\n' !in msg
    ensures MessagePart(t, |word|, |word| + 2 + |msg|)
  {
    SliceChars(t, |word| + 2, |word| + 2 + |msg|, msg);
  }

  lemma ReportMarkerPart(t: string, word: string, msg: string, lead: string, path: string,
                         d1: string, d2: string, rest: string)
    requires Laid(t, word, msg, lead, path, d1, d2, rest)
    requires '\n' !in lead && '\n' !in path
    requires |d1| > 0 && AllDigits(d1) && |d2| > 0 && AllDigits(d2)
    requires rest == [] || rest[0] == '\n'
    ensures var msgEnd := |word| + 2 + |msg|;
            var arrow := msgEnd + 1 + |lead|;
            var p := arrow + 3 + |path|;
            var q := p + 1 + |d1|;
            var r := q + 1 + |d2|;
            MarkerPart(t, msgEnd, arrow, p, q, r) && (r == |t| || t[r] == '\n')
  {
    var msgEnd := |word| + 2 + |msg|;
    var arrow := msgEnd + 1 + |lead|;
    var p := arrow + 3 + |path|;
    var q := p + 1 + |d1|;
    var r := q + 1 + |d2|;
    forall k | p < k < q ensures IsDigit(t[k]) {
      assert t[k] == t[p + 1..q][k - p - 1];
    }
    forall k | q < k < r ensures IsDigit(t[k]) {
      assert t[k] == t[q + 1..r][k - q - 1];
    }
    SliceChars(t, msgEnd + 1, arrow, lead);
    SliceChars(t, arrow + 3, p, path);
    assert ArrowAt(t, arrow) by {
      assert t[arrow] == t[arrow..arrow + 3][0];
      assert t[arrow + 1] == t[arrow..arrow + 3][1];
      assert t[arrow + 2] == t[arrow..arrow + 3][2];
    }
    forall k | msgEnd < k < r ensures t[k] != '\n' {
      if arrow <= k < arrow + 3 {
        assert t[k] == t[arrow..arrow + 3][k - arrow];
      }
    }
    if r < |t| {
      assert t[r] == t[r..][0];
    }
  }

  /** A report matches the expression at its first character, at the
      offsets of its pieces, and its column group ends the marker line. */
  lemma ReportShape(word: string, msg: string, lead: string, path: string,
                    d1: string, d2: string, rest: string)
    requires |word| > 0 && forall k :: 0 <= k < |word| ==> IsWordChar(word[k])
    requires '\n' !in msg && '\n' !in lead && '\n' !in path
    requires |d1| > 0 && AllDigits(d1) && |d2| > 0 && AllDigits(d2)
    requires rest == [] || rest[0] == '\n'
    ensures var t := Header(word, msg) + MarkerLine(lead, path, d1, d2, rest);
            var colon := |word|;
            var msgEnd := colon + 2 + |msg|;
            var arrow := msgEnd + 1 + |lead|;
            var p := arrow + 3 + |path|;
            var q := p + 1 + |d1|;
            var r := q + 1 + |d2|;
            && RegexShape(t, 0, colon, msgEnd, arrow, p, q, r)
            && (r == |t| || t[r] == '\n')
            && t[0..colon] == word && t[colon + 2..msgEnd] == msg
            && t[p + 1..q] == d1 && t[q + 1..r] == d2
  {
    var t := Header(word, msg) + MarkerLine(lead, path, d1, d2, rest);
    ReportSlices(word, msg, lead, path, d1, d2, rest);
    ReportWordPart(t, word, msg, lead, path, d1, d2, rest);
    ReportMessagePart(t, word, msg, lead, path, d1, d2, rest);
    ReportMarkerPart(t, word, msg, lead, path, d1, d2, rest);
  }

  /** The matcher finds the report's pieces as the groups of the match at
      its first character. */
  lemma ReportMatch(word: string, msg: string, lead: string, path: string,
                    d1: string, d2: string, rest: string)
    requires |word| > 0 && forall k :: 0 <= k < |word| ==> IsWordChar(word[k])
    requires '\n' !in msg && '\n' !in lead && '\n' !in path
    requires |d1| > 0 && AllDigits(d1) && |d2| > 0 && AllDigits(d2)
    requires rest == [] || rest[0] == '\n'
    ensures var t := Header(word, msg) + MarkerLine(lead, path, d1, d2, rest);
            && MatchAt(t, 0).Some?
            && MatchAt(t, 0).value.severity == word && MatchAt(t, 0).value.message == msg
            && MatchAt(t, 0).value.line == d1 && MatchAt(t, 0).value.column == d2
  {
    var t := Header(word, msg) + MarkerLine(lead, path, d1, d2, rest);
    var colon := |word|;
    var msgEnd := colon + 2 + |msg|;
    var arrow := msgEnd + 1 + |lead|;
    var p := arrow + 3 + |path|;
    var q := p + 1 + |d1|;
    var r := q + 1 + |d2|;
    ReportShape(word, msg, lead, path, d1, d2, rest);
    MatchAtGroups(t, 0, colon, msgEnd, arrow, p, q, r, word, msg, d1, d2);
  }

  /** Parsing a report of that layout gives back its message, its severity
      and a one-character range at its position. */
  lemma ParseReport(word: string, msg: string, lead: string, path: string,
                    line: nat, column: nat, rest: string)
    requires |word| > 0 && forall k :: 0 <= k < |word| ==> IsWordChar(word[k])
    requires '\n' !in msg && '\n' !in lead && '\n' !in path
    requires rest == [] || rest[0] == '\n'
    ensures ParseStderr(Report(word, msg, lead, path, line, column, rest))
            == [Diagnostic(CharacterRange(ParseU32(Decimal(line)), ParseU32(Decimal(column))),
                           ParseSeverity(word), msg)]
  {
    var t := Report(word, msg, lead, path, line, column, rest);
    ReportMatch(word, msg, lead, path, Decimal(line), Decimal(column), rest);
    assert FindMatch(t, 0) == MatchAt(t, 0);
  }

  /** The first report of the handler's own test, piece by piece. */
  const UnknownTokenReport: string :=
    "error" + ": " + "Unknown start of token '1'" + "\n"
    + Arrow + " justfile" + ":7:1"
    + UnknownTokenSource

  /** The lines after the marker line: the source line and the caret. */
  const UnknownTokenSource: string :=
    "\n" + "\U{2502}" + "\n" + "7 \U{2502} 123" + "\n" + "  \U{2502} ^"

  /** That report has the layout the matcher expects. */
  lemma UnknownTokenLayout()
    ensures UnknownTokenReport
            == Report("error", "Unknown start of token '1'", "", " justfile", 7, 1, UnknownTokenSource)
  {
    assert Decimal(7) == "7" && Decimal(1) == "1";
    assert ":7:1" == ":" + "7" + ":" + "1";
  }

  /** That report is a bad token at line 7, column 1 of the justfile: the
      diagnostic covers the first character of the seventh line. */
  lemma ParseUnknownToken()
    ensures ParseStderr(UnknownTokenReport)
            == [Diagnostic(Range(Position(6, 0), Position(6, 1)), Some(Error),
                           "Unknown start of token '1'")]
  {
    UnknownTokenLayout();
    assert '\n' !in "Unknown start of token '1'";
    ParseReport("error", "Unknown start of token '1'", "", " justfile", 7, 1, UnknownTokenSource);
    ParseDecimal(7);
    ParseDecimal(1);
  }

  /** The message of the second report of the handler's own test. */
  const UnexpectedColonMessage: string :=
    "Expected '&&', comment, " + "end of file, end of line, " + "identifier, or '(', " + "but found ':'"

  /** The second report of the handler's own test: an unexpected colon at
      line 3, column 4 of a temporary file. The colons on the lines after
      the marker line play no part. */
  lemma ParseUnexpectedColon()
    ensures ParseStderr(Report("error", UnexpectedColonMessage, "", " .tmpu9xSRk", 3, 4,
                               "\n" + "  \U{2502}\n3 \U{2502} a:::b\n  \U{2502}    ^"))
            == [Diagnostic(Range(Position(2, 3), Position(2, 4)), Some(Error),
                           UnexpectedColonMessage)]
  {
    assert '\n' !in "Expected '&&', comment, " && '\n' !in "end of file, end of line, ";
    assert '\n' !in "identifier, or '(', " && '\n' !in "but found ':'";
    assert '\n' !in UnexpectedColonMessage;
    ParseReport("error", UnexpectedColonMessage, "", " .tmpu9xSRk", 3, 4,
                "\n" + "  \U{2502}\n3 \U{2502} a:::b\n  \U{2502}    ^");
    ParseDecimal(3);
    ParseDecimal(4);
  }

  /** A marker line that starts with a space, under a message that ends
      with a colon, is read at line 7, column 13. */
  lemma ParseIndentedMarker()
    ensures ParseStderr(Report("error", "Unknown start of token:", " ", " justfile", 7, 13,
                               "\n" + "  \U{2502}\n7 \U{2502}   just something here\n  \U{2502}             ^"))
            == [Diagnostic(Range(Position(6, 12), Position(6, 13)), Some(Error),
                           "Unknown start of token:")]
  {
    assert '\n' !in "Unknown start of token:";
    ParseReport("error", "Unknown start of token:", " ", " justfile", 7, 13,
                "\n" + "  \U{2502}\n7 \U{2502}   just something here\n  \U{2502}             ^");
    ParseDecimal(7);
    ParseDecimal(13);
  }
}
