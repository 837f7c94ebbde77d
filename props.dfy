/** The `.env` definitions handler: it collects `.env` and `.env.example`
    files from the working directory and its ancestors, indexes their
    `NAME = value` lines by name, and answers hovers over a name with every
    definition of it. The handler is standalone: the registry does not
    register it. */
module Props {
  import opened Types
  import opened Text
  import Capabilities

  /** One `NAME = value` line of a properties file. */
  datatype Definition = Definition(fromPath: string, name: string, value: string)

  /** Text without leading or trailing white space. */
  predicate Trimmed(s: string) {
    |s| == 0 || (!IsWhitespace(s[0]) && !IsWhitespace(s[|s| - 1]))
  }

  lemma TrimmedTrim(s: string)
    ensures Trimmed(Trim(s))
    ensures Trim(Trim(s)) == Trim(s)
  {
    TrimOfTrimmed(Trim(s));
  }

  /** Trimming only removes characters. */
  lemma TrimKeepsOut(s: string, c: char)
    requires c !in s
    ensures c !in Trim(s)
  {
    if |Trim(s)| > 0 {
      var i, j := LeadingSpace(s), TrailingStart(s);
      assert forall k :: 0 <= k < |Trim(s)| ==> Trim(s)[k] == s[i + k];
    }
  }

  // ---------------------------------------------------------------------------
  // Parsing

  /** One line: trimmed, split at its first `=`, both sides trimmed; a line
      without `=` defines nothing. */
  function ParseLine(line: string): Option<(string, string)>
  {
    var l := Trim(line);
    var k := Find(l, '=', 0);
    if k == |l| then None else Some((Trim(l[..k]), Trim(l[k + 1..])))
  }

  /** A line defines something exactly when its trimmed text holds `=`; the
      name is the trimmed text before the first `=`, so it holds no `=`, and
      the value the trimmed text after it. */
  lemma ParseLineSpec(line: string)
    ensures ParseLine(line).Some? <==> '=' in Trim(line)
    ensures ParseLine(line).Some? ==>
              var l := Trim(line);
              var k := Find(l, '=', 0);
              && k < |l| && l[k] == '=' && '=' !in l[..k]
              && ParseLine(line).value == (Trim(l[..k]), Trim(l[k + 1..]))
    ensures ParseLine(line).Some? ==>
              '=' !in ParseLine(line).value.0 && Trimmed(ParseLine(line).value.0) && Trimmed(ParseLine(line).value.1)
  {
    var l := Trim(line);
    var k := Find(l, '=', 0);
    if k == |l| {
      NotInSlice(l, '=', 0, |l|);
      assert l[0..|l|] == l;
    } else {
      NotInSlice(l, '=', 0, k);
      assert l[0..k] == l[..k];
      TrimKeepsOut(l[..k], '=');
      TrimmedTrim(l[..k]);
      TrimmedTrim(l[k + 1..]);
    }
  }

  /** Writing a definition as `NAME=value` and parsing it gives it back. */
  lemma ParseLineRoundTrip(name: string, value: string)
    requires '=' !in name && Trimmed(name) && Trimmed(value)
    ensures ParseLine(name + "=" + value) == Some((name, value))
  {
    var l := name + "=" + value;
    assert l[0] == (if |name| > 0 then name[0] else '=');
    assert l[|l| - 1] == (if |value| > 0 then value[|value| - 1] else '=');
    TrimOfTrimmed(l);
    assert l[|name|] == '=';
    assert forall j :: 0 <= j < |name| ==> l[j] == name[j];
    FindIsUnique(l, '=', 0, |name|);
    assert l[..|name|] == name;
    assert l[|name| + 1..] == value;
    TrimOfTrimmed(name);
    TrimOfTrimmed(value);
  }

  /** What one line of a file defines: nothing, or one definition. */
  function LineDefinition(path: string, line: string): (ds: seq<Definition>)
    ensures |ds| <= 1
  {
    match ParseLine(line)
    case None => []
    case Some(nv) => [Definition(path, nv.0, nv.1)]
  }

  /** The definitions the lines of one file give, in line order. */
  function LineDefinitions(path: string, lines: seq<string>): (ds: seq<Definition>)
    ensures |ds| <= |lines|
    ensures forall k :: 0 <= k < |ds| ==> ds[k].fromPath == path
  {
    if |lines| == 0 then []
    else
      var n := |lines| - 1;
      LineDefinitions(path, lines[..n]) + LineDefinition(path, lines[n])
  }

  /** The definitions of all files in order, skipping files that cannot be
      read (`fs` maps a readable file to its contents). */
  function AllDefinitions(files: seq<string>, fs: map<string, string>): (ds: seq<Definition>)
    ensures forall k :: 0 <= k < |ds| ==> ds[k].fromPath in files && ds[k].fromPath in fs
  {
    if |files| == 0 then []
    else
      var n := |files| - 1;
      var path := files[n];
      AllDefinitions(files[..n], fs) + (if path in fs then LineDefinitions(path, Lines(fs[path])) else [])
  }

  /** `entry(name).or_default().push(d)`. */
  function Push(index: map<string, seq<Definition>>, d: Definition): map<string, seq<Definition>>
  {
    index[d.name := (if d.name in index then index[d.name] else []) + [d]]
  }

  /** The index built by pushing each definition in turn onto an empty map. */
  function Index(ds: seq<Definition>): map<string, seq<Definition>>
  {
    if |ds| == 0 then map[] else Push(Index(ds[..|ds| - 1]), ds[|ds| - 1])
  }

  /** Reference: the definitions of one name, in order. */
  function Named(ds: seq<Definition>, name: string): (r: seq<Definition>)
    ensures forall k :: 0 <= k < |r| ==> r[k].name == name && r[k] in ds
  {
    if |ds| == 0 then []
    else
      var n := |ds| - 1;
      Named(ds[..n], name) + (if ds[n].name == name then [ds[n]] else [])
  }

  /** The index groups the definitions by name: a name is a key exactly
      when something defines it, and its entry lists every definition of
      it, duplicates included, in order. */
  lemma {:induction false} IndexGroups(ds: seq<Definition>)
    ensures forall name :: name in Index(ds) <==> Named(ds, name) != []
    ensures forall name :: name in Index(ds) ==> Index(ds)[name] == Named(ds, name)
  {
    if |ds| > 0 {
      IndexGroups(ds[..|ds| - 1]);
    }
  }

  /** Parsing never loses a definition: a later definition of a name is
      added after the earlier ones, never in their place. */
  lemma IndexAppend(ds: seq<Definition>, d: Definition)
    ensures d.name in Index(ds + [d])
    ensures Index(ds + [d])[d.name] == (if d.name in Index(ds) then Index(ds)[d.name] else []) + [d]
    ensures forall name :: name != d.name ==> Lookup(Index(ds + [d]), name) == Lookup(Index(ds), name)
  {
    assert (ds + [d])[..|ds|] == ds;
  }

  function Lookup(index: map<string, seq<Definition>>, name: string): Option<seq<Definition>>
  {
    if name in index then Some(index[name]) else None
  }

  // ---------------------------------------------------------------------------
  // Finding the files

  /** A directory entry: its file name, whether it is a regular file, and
      its path. */
  datatype Entry = Entry(name: string, isFile: bool, path: string)

  /** A directory level: the readable entries, or `None` when the directory
      cannot be read. */
  type Level = Option<seq<Entry>>

  /** Whether an entry of the level carries a stop name. */
  predicate Stops(entries: seq<Entry>, stopAt: seq<string>)
  {
    exists k :: 0 <= k < |entries| && entries[k].name in stopAt
  }

  /** The paths of the level's regular files with a wanted name that is not
      a stop name, in entry order. */
  function LevelFinds(entries: seq<Entry>, stopAt: seq<string>, fileNames: seq<string>): seq<string>
  {
    if |entries| == 0 then []
    else
      var n := |entries| - 1;
      var e := entries[n];
      LevelFinds(entries[..n], stopAt, fileNames)
      + (if e.name !in stopAt && e.isFile && e.name in fileNames then [e.path] else [])
  }

  /** What the walk from level `i` finds: `levels[i + 1]` is the parent of
      `levels[i]`, and the last level has no parent. */
  function Traversal(levels: seq<Level>, i: nat, stopAt: seq<string>, fileNames: seq<string>): (r: Result<seq<string>, IoError>)
    requires i < |levels|
    ensures r.Err? <==> levels[i].None?
    decreases |levels| - i
  {
    match levels[i]
    case None => Err(Unreadable)
    case Some(entries) =>
      var own := LevelFinds(entries, stopAt, fileNames);
      if Stops(entries, stopAt) || i + 1 == |levels| then Ok(own)
      else match Traversal(levels, i + 1, stopAt, fileNames) {
        case Ok(parents) => Ok(own + parents)
        case Err(_) => Ok(own)
      }
  }

  /** The error `read_dir` reports is not modelled beyond its occurrence. */
  datatype IoError = Unreadable

  /** Exactly the wanted regular files of a level are found there. */
  lemma {:induction false} LevelFindsExact(entries: seq<Entry>, stopAt: seq<string>, fileNames: seq<string>)
    ensures forall p :: p in LevelFinds(entries, stopAt, fileNames) <==>
              exists k :: 0 <= k < |entries| && entries[k].path == p && entries[k].isFile
                          && entries[k].name in fileNames && entries[k].name !in stopAt
  {
    if |entries| > 0 {
      var n := |entries| - 1;
      LevelFindsExact(entries[..n], stopAt, fileNames);
      assert forall k :: 0 <= k < n ==> entries[..n][k] == entries[k];
    }
  }

  /** A level with a stop name, or whose parent cannot be read, or that has
      no parent, contributes its own files and nothing more. */
  lemma TraversalStops(levels: seq<Level>, i: nat, stopAt: seq<string>, fileNames: seq<string>)
    requires i < |levels| && levels[i].Some?
    requires Stops(levels[i].value, stopAt) || i + 1 == |levels| || levels[i + 1].None?
    ensures Traversal(levels, i, stopAt, fileNames) == Ok(LevelFinds(levels[i].value, stopAt, fileNames))
  {
  }

  /** The files of the starting level come first, in entry order. */
  lemma TraversalOwnFirst(levels: seq<Level>, i: nat, stopAt: seq<string>, fileNames: seq<string>)
    requires i < |levels| && levels[i].Some?
    ensures var own := LevelFinds(levels[i].value, stopAt, fileNames);
            var r := Traversal(levels, i, stopAt, fileNames).value;
            |own| <= |r| && r[..|own|] == own
  {
  }

  /** The walk from level `i` reaches level `j`: every level from `i` up
      to `j` can be read, and none below `j` holds a stop name. */
  predicate Reaches(levels: seq<Level>, i: nat, j: nat, stopAt: seq<string>)
    requires i <= j < |levels|
  {
    && (forall l :: i <= l <= j ==> levels[l].Some?)
    && (forall l :: i <= l < j ==> levels[l].Some? && !Stops(levels[l].value, stopAt))
  }

  /** Everything found is a wanted regular file of a level the walk
      reaches, and never an entry with a stop name: nothing above the first
      level that holds a stop name is found. */
  lemma {:induction false} TraversalSound(levels: seq<Level>, i: nat, stopAt: seq<string>, fileNames: seq<string>, p: string)
    requires i < |levels| && levels[i].Some?
    requires p in Traversal(levels, i, stopAt, fileNames).value
    ensures exists j, k :: i <= j < |levels| && Reaches(levels, i, j, stopAt) && 0 <= k < |levels[j].value|
              && levels[j].value[k].path == p && levels[j].value[k].isFile
              && levels[j].value[k].name in fileNames && levels[j].value[k].name !in stopAt
    decreases |levels| - i
  {
    var entries := levels[i].value;
    var own := LevelFinds(entries, stopAt, fileNames);
    LevelFindsExact(entries, stopAt, fileNames);
    if p in own {
      var k :| 0 <= k < |entries| && entries[k].path == p && entries[k].isFile
               && entries[k].name in fileNames && entries[k].name !in stopAt;
      assert Reaches(levels, i, i, stopAt);
    } else {
      var r := Traversal(levels, i + 1, stopAt, fileNames).value;
      assert Traversal(levels, i, stopAt, fileNames).value == own + r;
      TraversalSound(levels, i + 1, stopAt, fileNames, p);
      var j, k :| i + 1 <= j < |levels| && Reaches(levels, i + 1, j, stopAt) && 0 <= k < |levels[j].value|
                  && levels[j].value[k].path == p && levels[j].value[k].isFile
                  && levels[j].value[k].name in fileNames && levels[j].value[k].name !in stopAt;
      assert Reaches(levels, i, j, stopAt);
    }
  }

  /** Conversely, every wanted regular file of a level the walk reaches is
      found. */
  lemma {:induction false} TraversalComplete(levels: seq<Level>, i: nat, j: nat, stopAt: seq<string>, fileNames: seq<string>, k: nat)
    requires i <= j < |levels| && Reaches(levels, i, j, stopAt)
    requires k < |levels[j].value| && levels[j].value[k].isFile
    requires levels[j].value[k].name in fileNames && levels[j].value[k].name !in stopAt
    ensures levels[j].value[k].path in Traversal(levels, i, stopAt, fileNames).value
    decreases j - i
  {
    var own := LevelFinds(levels[i].value, stopAt, fileNames);
    TraversalOwnFirst(levels, i, stopAt, fileNames);
    if i == j {
      LevelFindsExact(levels[i].value, stopAt, fileNames);
      var r := Traversal(levels, i, stopAt, fileNames).value;
      assert levels[j].value[k].path in own;
      assert r == own + r[|own|..];
    } else {
      assert Reaches(levels, i + 1, j, stopAt);
      TraversalComplete(levels, i + 1, j, stopAt, fileNames, k);
      assert Traversal(levels, i, stopAt, fileNames).value
             == own + Traversal(levels, i + 1, stopAt, fileNames).value;
    }
  }

  /** `traverse_parents`: collect the wanted files of the level, note a
      stop name, and unless stopped add what the parent's walk finds. */
  method TraverseParents(levels: seq<Level>, i: nat, stopAt: seq<string>, fileNames: seq<string>)
    returns (r: Result<seq<string>, IoError>)
    requires i < |levels|
    ensures r == Traversal(levels, i, stopAt, fileNames)
    decreases |levels| - i
  {
    if levels[i].None? {
      return Err(Unreadable);
    }
    var entries := levels[i].value;
    var stop := false;
    var found: seq<string> := [];
    var k := 0;
    while k < |entries|
      invariant 0 <= k <= |entries|
      invariant found == LevelFinds(entries[..k], stopAt, fileNames)
      invariant stop <==> Stops(entries[..k], stopAt)
    {
      var entry := entries[k];
      assert entries[..k + 1][..k] == entries[..k];
      assert entries[..k + 1][k] == entry;
      if entry.name in stopAt {
        stop := true;
      } else if entry.isFile && entry.name in fileNames {
        found := found + [entry.path];
      }
      k := k + 1;
    }
    assert entries[..k] == entries;
    if !stop && i + 1 < |levels| {
      var parentFinds := TraverseParents(levels, i + 1, stopAt, fileNames);
      if parentFinds.Ok? {
        found := found + parentFinds.value;
      }
    }
    return Ok(found);
  }

  const StopNames: seq<string> := [".git"]
  const PropFileNames: seq<string> := [".env", ".env.example"]

  /** The files the handler reads: what the walk from the working
      directory finds, or none when the working directory is unknown
      (no levels) or cannot be read. */
  function PropFiles(levels: seq<Level>): seq<string>
  {
    if |levels| == 0 then []
    else match Traversal(levels, 0, StopNames, PropFileNames) {
      case Ok(files) => files
      case Err(_) => []
    }
  }

  method GetPropFiles(levels: seq<Level>) returns (files: seq<string>)
    ensures files == PropFiles(levels)
  {
    if |levels| == 0 {
      return [];
    }
    var r := TraverseParents(levels, 0, StopNames, PropFileNames);
    files := if r.Ok? then r.value else [];
  }

  /** The walk from a repository's top level (it holds `.git`) reads only
      that level. */
  lemma RepositoryTopOnly(levels: seq<Level>, entries: seq<Entry>, k: nat)
    requires |levels| > 0 && levels[0] == Some(entries)
    requires k < |entries| && entries[k].name == ".git"
    ensures PropFiles(levels) == LevelFinds(entries, StopNames, PropFileNames)
  {
    assert entries[k].name in StopNames;
  }

  // ---------------------------------------------------------------------------
  // Hover

  /** Number of line feeds in `s`. */
  function Newlines(s: string): nat
  {
    if |s| == 0 then 0 else Newlines(s[..|s| - 1]) + (if s[|s| - 1] == '\n' then 1 else 0)
  }

  lemma NewlinesStep(t: string, i: nat)
    requires i < |t|
    ensures Newlines(t[..i + 1]) == Newlines(t[..i]) + (if t[i] == '\n' then 1 else 0)
  {
    assert t[..i + 1][..i] == t[..i];
  }

  /** The first hover loop from character `i` on, with `cur` line feeds
      passed: the character index where line `line` starts, or the end. */
  function SkipLines(t: string, line: nat, i: nat, cur: nat): (r: nat)
    requires i <= |t|
    ensures i <= r <= |t|
    decreases |t| - i
  {
    if cur == line || i == |t| then i
    else SkipLines(t, line, i + 1, if t[i] == '\n' then cur + 1 else cur)
  }

  function LineStart(t: string, line: nat): (r: nat)
    ensures r <= |t|
  {
    SkipLines(t, line, 0, 0)
  }

  lemma {:induction false} NewlinesMonotone(t: string, i: nat)
    requires i <= |t|
    ensures Newlines(t[..i]) <= Newlines(t)
    decreases |t| - i
  {
    if i < |t| {
      NewlinesStep(t, i);
      NewlinesMonotone(t, i + 1);
    } else {
      assert t[..i] == t;
    }
  }

  lemma {:induction false} SkipLinesSpec(t: string, line: nat, i: nat, cur: nat)
    requires i <= |t| && cur == Newlines(t[..i]) && cur <= line
    requires forall k :: 0 <= k < i ==> Newlines(t[..k]) < line
    ensures var r := SkipLines(t, line, i, cur);
            && i <= r <= |t|
            && (Newlines(t[..r]) == line || r == |t|)
            && (forall k :: 0 <= k < r ==> Newlines(t[..k]) < line)
    decreases |t| - i
  {
    if cur != line && i < |t| {
      NewlinesStep(t, i);
      SkipLinesSpec(t, line, i + 1, if t[i] == '\n' then cur + 1 else cur);
    }
  }

  /** Line `line` starts right after the `line`-th line feed: the first
      position with that many line feeds before it. When the text has fewer
      lines the scan runs off its end. */
  lemma LineStartSpec(t: string, line: nat)
    ensures var r := LineStart(t, line);
            && r <= |t|
            && (Newlines(t[..r]) == line || r == |t|)
            && (forall k :: 0 <= k < r ==> Newlines(t[..k]) < line)
            && (Newlines(t) < line ==> r == |t|)
  {
    assert t[..0] == [];
    SkipLinesSpec(t, line, 0, 0);
    NewlinesMonotone(t, LineStart(t, line));
  }

  /** The second hover loop from character `i` on: `fv` is the start of the
      current word and `units` the UTF-16 length so far. It stops at the
      first non-word character at or after column `col`; its result is the
      bounds of the word before that point. */
  function Scan(rest: string, col: nat, i: nat, fv: nat, units: nat): (r: (nat, nat))
    requires i <= |rest|
    ensures i <= r.1 <= |rest|
    ensures fv <= i ==> r.0 <= r.1
    decreases |rest| - i
  {
    if i == |rest| then (fv, i)
    else if !IsWordChar(rest[i]) && units >= col then (fv, i)
    else Scan(rest, col, i + 1, if !IsWordChar(rest[i]) then i + 1 else fv, units + Utf16Width(rest[i]))
  }

  function TokenBounds(rest: string, col: nat): (r: (nat, nat))
    ensures r.0 <= r.1 <= |rest|
  {
    Scan(rest, col, 0, 0, 0)
  }

  /** Every character of `rest[f..e]` is a word character. */
  predicate WordRun(rest: string, f: nat, e: nat)
    requires f <= e <= |rest|
  {
    forall k :: f <= k < e ==> IsWordChar(rest[k])
  }

  /** The characterisation of the token bounds `(f, e)`: a run of word
      characters that starts after a non-word character placed before the
      column (or at the start), and ends at the end of the text or at a
      non-word character at or after the column. */
  predicate IsToken(rest: string, col: nat, f: nat, e: nat)
  {
    && f <= e <= |rest|
    && WordRun(rest, f, e)
    && (f == 0 || (!IsWordChar(rest[f - 1]) && Utf16Prefix(rest, f - 1) < col))
    && (e == |rest| || (!IsWordChar(rest[e]) && Utf16Prefix(rest, e) >= col))
  }

  lemma {:induction false} ScanSpec(rest: string, col: nat, i: nat, fv: nat, units: nat)
    requires fv <= i <= |rest| && units == Utf16Prefix(rest, i)
    requires WordRun(rest, fv, i)
    requires fv == 0 || (!IsWordChar(rest[fv - 1]) && Utf16Prefix(rest, fv - 1) < col)
    ensures IsToken(rest, col, Scan(rest, col, i, fv, units).0, Scan(rest, col, i, fv, units).1)
    decreases |rest| - i
  {
    if i < |rest| && (IsWordChar(rest[i]) || units < col) {
      var fv' := if !IsWordChar(rest[i]) then i + 1 else fv;
      assert WordRun(rest, fv', i + 1);
      ScanSpec(rest, col, i + 1, fv', units + Utf16Width(rest[i]));
    }
  }

  /** The token the hover looks at is characterised by `IsToken`. */
  lemma TokenBoundsSpec(rest: string, col: nat)
    ensures IsToken(rest, col, TokenBounds(rest, col).0, TokenBounds(rest, col).1)
  {
    ScanSpec(rest, col, 0, 0, 0);
  }

  /** Only one pair of bounds meets the characterisation. */
  lemma TokenBoundsUnique(rest: string, col: nat, f: nat, e: nat)
    requires IsToken(rest, col, f, e)
    ensures TokenBounds(rest, col) == (f, e)
  {
    TokenBoundsSpec(rest, col);
    var (f', e') := TokenBounds(rest, col);
    StopIsFirst(rest, col, f, e, f', e');
    StopIsFirst(rest, col, f', e', f, e);
  }

  /** Of two characterised pairs, neither ends before the other. */
  lemma StopIsFirst(rest: string, col: nat, f: nat, e: nat, f': nat, e': nat)
    requires IsToken(rest, col, f, e) && IsToken(rest, col, f', e')
    ensures e <= e'
    ensures e == e' ==> f <= f'
  {
    if e' < e {
      assert !IsWordChar(rest[e']);
      assert e' < f;
      if e' < f - 1 {
        PrefixGrows(rest, e', f - 1);
      }
    }
  }

  /** `bytes_traversed as u32`: the byte count truncated to 32 bits. */
  function AsU32(n: nat): u32
  {
    n % (U32_MAX + 1)
  }

  /** The name the hover looks up in the rest of the text from the
      requested line on, as written: none when the token is empty or when its
      end, counted in UTF-8 bytes and truncated to 32 bits, is not past the
      column, which counts UTF-16 code units. */
  function TokenAt(rest: string, col: u32): Option<string>
  {
    var (f, e) := TokenBounds(rest, col);
    if Utf8Prefix(rest, f) >= Utf8Prefix(rest, e) || AsU32(Utf8Prefix(rest, e)) <= col then None
    else Some(rest[f..e])
  }

  /** The name looked up is a non-empty run of word characters. */
  lemma TokenAtIsWord(rest: string, col: u32)
    requires TokenAt(rest, col).Some?
    ensures |TokenAt(rest, col).value| > 0
    ensures forall k :: 0 <= k < |TokenAt(rest, col).value| ==> IsWordChar(TokenAt(rest, col).value[k])
  {
    TokenBoundsSpec(rest, col);
    var (f, e) := TokenBounds(rest, col);
    assert WordRun(rest, f, e);
    assert forall k :: 0 <= k < e - f ==> rest[f..e][k] == rest[f + k];
  }

  /** A cursor on a word character, or on the character just after a word,
      finds that whole word, when the word reaches past the column and the
      text up to its end takes fewer than 2^32 bytes. */
  lemma TokenAtFindsWord(rest: string, col: u32, f: nat, e: nat)
    requires f < e <= |rest| && WordRun(rest, f, e)
    requires f == 0 || !IsWordChar(rest[f - 1])
    requires e == |rest| || !IsWordChar(rest[e])
    requires Utf16Prefix(rest, f) <= col < Utf16Prefix(rest, e)
    requires Utf8Prefix(rest, e) <= U32_MAX
    ensures TokenAt(rest, col) == Some(rest[f..e])
  {
    if f > 0 {
      PrefixGrows(rest, f - 1, f);
    }
    TokenBoundsUnique(rest, col, f, e);
    PrefixGrows(rest, f, e);
    Utf8AtLeastUtf16(rest, e);
  }

  /** A cursor on a non-word character that does not follow a word finds
      nothing. */
  lemma TokenAtGap(rest: string, col: u32, k: nat)
    requires k < |rest| && !IsWordChar(rest[k]) && Utf16Prefix(rest, k) == col
    requires k == 0 || !IsWordChar(rest[k - 1])
    ensures TokenAt(rest, col) == None
  {
    if k > 0 {
      PrefixGrows(rest, k - 1, k);
    }
    TokenBoundsUnique(rest, col, k, k);
  }

  /** The token test as evidently intended: the token's end, counted in
      UTF-16 code units like the column, must lie past the column. */
  function TokenAtIntended(rest: string, col: u32): Option<string>
  {
    var (f, e) := TokenBounds(rest, col);
    if f >= e || Utf16Prefix(rest, e) <= col then None else Some(rest[f..e])
  }

  /** The intended test finds a token only when it covers the column: it
      starts after a non-word character placed before the column and ends
      past the column. */
  lemma TokenAtIntendedCovers(rest: string, col: u32)
    requires TokenAtIntended(rest, col).Some?
    ensures var (f, e) := TokenBounds(rest, col);
            && f < e && TokenAtIntended(rest, col).value == rest[f..e]
            && (f == 0 || Utf16Prefix(rest, f - 1) < col)
            && col < Utf16Prefix(rest, e)
  {
    TokenBoundsSpec(rest, col);
  }

  /** Conversely, a cursor anywhere inside a word finds that whole word. */
  lemma TokenAtIntendedFindsWord(rest: string, col: u32, f: nat, e: nat)
    requires f < e <= |rest| && WordRun(rest, f, e)
    requires f == 0 || !IsWordChar(rest[f - 1])
    requires e == |rest| || !IsWordChar(rest[e])
    requires Utf16Prefix(rest, f) <= col < Utf16Prefix(rest, e)
    ensures TokenAtIntended(rest, col) == Some(rest[f..e])
  {
    if f > 0 {
      PrefixGrows(rest, f - 1, f);
    }
    TokenBoundsUnique(rest, col, f, e);
  }

  /** Text that is all ASCII takes as many bytes as code units. */
  lemma {:induction false} AsciiWidths(s: string, k: nat)
    requires k <= |s|
    requires forall j :: 0 <= j < |s| ==> s[j] as int < 0x80
    ensures Utf8Prefix(s, k) == Utf16Prefix(s, k)
  {
    if k > 0 {
      AsciiWidths(s, k - 1);
    }
  }

  /** On ASCII text under 2^32 bytes the code as written and the intended
      test agree. */
  lemma TokenAtAsciiAgrees(rest: string, col: u32)
    requires forall j :: 0 <= j < |rest| ==> rest[j] as int < 0x80
    requires Utf8Prefix(rest, |rest|) <= U32_MAX
    ensures TokenAt(rest, col) == TokenAtIntended(rest, col)
  {
    var (f, e) := TokenBounds(rest, col);
    AsciiWidths(rest, e);
    if e < |rest| {
      PrefixGrows(rest, e, |rest|);
    }
    if f < e {
      PrefixGrows(rest, f, e);
    }
  }

  /** As written, a character wider in UTF-8 than in UTF-16 before the
      token lets a cursor placed after the token's end still find it: in
      `éa` the token `a` ends at column 2, yet a hover at column 2 finds it,
      while the intended test finds nothing. */
  lemma TokenAtPastWordEnd()
    ensures TokenBounds("\U{00E9}a", 2) == (1, 2)
    ensures Utf16Prefix("\U{00E9}a", 2) == 2
    ensures TokenAt("\U{00E9}a", 2) == Some("a")
    ensures TokenAtIntended("\U{00E9}a", 2) == None
  {
    var rest := "\U{00E9}a";
    assert !IsWordChar(rest[0]) && IsWordChar(rest[1]);
    assert Utf16Prefix(rest, 1) == 1 && Utf16Prefix(rest, 2) == 2;
    assert Utf8Prefix(rest, 1) == 2 && Utf8Prefix(rest, 2) == 3;
    TokenBoundsUnique(rest, 2, 1, 2);
    assert AsU32(3) == 3;
    assert rest[1..2] == "a";
  }

  /** Each definition as `path`, line feed, `name = value`. */
  function RenderDefinition(d: Definition): string
  {
    d.fromPath + "\n" + d.name + " = " + d.value
  }

  /** The hover text: the rendered definitions in order, separated by a
      blank line. */
  function Render(ds: seq<Definition>): string
  {
    if |ds| == 0 then ""
    else if |ds| == 1 then RenderDefinition(ds[0])
    else Render(ds[..|ds| - 1]) + "\n\n" + RenderDefinition(ds[|ds| - 1])
  }

  /** Rendering one more definition appends it after a blank line. */
  lemma RenderAppend(ds: seq<Definition>, d: Definition)
    ensures Render(ds + [d]) == if ds == [] then RenderDefinition(d) else Render(ds) + "\n\n" + RenderDefinition(d)
  {
    assert (ds + [d])[..|ds|] == ds;
  }

  /** What a hover at `position` shows, with the token test corrected. */
  function HoverText(index: map<string, seq<Definition>>, contents: string, position: Position): Option<string>
  {
    var rest := contents[LineStart(contents, position.line)..];
    match TokenAtIntended(rest, position.character)
    case None => None
    case Some(name) => if name in index then Some(Render(index[name])) else None
  }

  /** A hover shows something only for a defined name under the cursor,
      and then shows every definition of it. */
  lemma HoverTextSome(index: map<string, seq<Definition>>, contents: string, position: Position)
    requires HoverText(index, contents, position).Some?
    ensures var rest := contents[LineStart(contents, position.line)..];
            var name := TokenAtIntended(rest, position.character);
            && name.Some? && |name.value| > 0 && name.value in index
            && HoverText(index, contents, position).value == Render(index[name.value])
  {
    var rest := contents[LineStart(contents, position.line)..];
    TokenAtIntendedCovers(rest, position.character);
  }

  /** A hover below the last line shows nothing. */
  lemma HoverPastEnd(index: map<string, seq<Definition>>, contents: string, position: Position)
    requires Newlines(contents) < position.line
    ensures HoverText(index, contents, position) == None
  {
    LineStartSpec(contents, position.line);
    assert contents[|contents|..] == [];
  }

  /** One more file extends the definitions by that file's, when it can be
      read. */
  lemma FileStep(files: seq<string>, fs: map<string, string>, i: nat)
    requires i < |files|
    ensures files[i] !in fs ==> AllDefinitions(files[..i + 1], fs) == AllDefinitions(files[..i], fs)
    ensures files[i] in fs ==>
              AllDefinitions(files[..i + 1], fs)
              == AllDefinitions(files[..i], fs) + LineDefinitions(files[i], Lines(fs[files[i]]))
  {
    assert files[..i + 1][..i] == files[..i];
    assert AllDefinitions(files[..i], fs) + [] == AllDefinitions(files[..i], fs);
  }

  lemma LinesStart(done: seq<Definition>, path: string, lines: seq<string>)
    ensures done + LineDefinitions(path, lines[..0]) == done
  {
    assert lines[..0] == [];
    assert done + [] == done;
  }

  /** One more line adds what it defines after the earlier lines' definitions. */
  lemma LineStep(done: seq<Definition>, path: string, lines: seq<string>, j: nat)
    requires j < |lines|
    ensures done + LineDefinitions(path, lines[..j + 1])
            == (done + LineDefinitions(path, lines[..j])) + LineDefinition(path, lines[j])
  {
    assert lines[..j + 1][..j] == lines[..j];
  }

  /** Indexing one more definition pushes it. */
  lemma IndexSnoc(ds: seq<Definition>, d: Definition)
    ensures Index(ds + [d]) == Push(Index(ds), d)
  {
    assert (ds + [d])[..|ds|] == ds;
  }

  /** Indexing what one more line defines. */
  lemma LineIndexStep(seen: seq<Definition>, path: string, line: string)
    ensures ParseLine(line).None? ==> Index(seen + LineDefinition(path, line)) == Index(seen)
    ensures ParseLine(line).Some? ==>
              var nv := ParseLine(line).value;
              Index(seen + LineDefinition(path, line)) == Push(Index(seen), Definition(path, nv.0, nv.1))
  {
    if ParseLine(line).Some? {
      var nv := ParseLine(line).value;
      IndexSnoc(seen, Definition(path, nv.0, nv.1));
    } else {
      assert seen + LineDefinition(path, line) == seen;
    }
  }

  /** A line with spaces around the name and the value. */
  lemma ParseSpacedLine()
    ensures ParseLine(" K = v ") == Some(("K", "v"))
  {
    var line := " K = v ";
    assert LeadingSpace(line[1..]) == 0;
    assert LeadingSpace(line) == 1;
    assert TrailingStart(line[..6]) == 6;
    assert TrailingStart(line) == 6;
    assert line[1..6] == "K = v";
    FindIsUnique("K = v", '=', 0, 2);
    assert "K = v"[..2] == "K " && "K = v"[3..] == " v";
    assert Trim("K ") == "K" && Trim(" v") == "v";
  }

  /** Only the first `=` splits: the value keeps the others. */
  lemma ParseSplitsAtFirstEquals()
    ensures ParseLine("A=b=c") == Some(("A", "b=c"))
  {
    ParseLineRoundTrip("A", "b=c");
    assert "A" + "=" + "b=c" == "A=b=c";
  }

  /** A line without `=` defines nothing. */
  lemma ParseCommentLine()
    ensures ParseLine("# c") == None
  {
    ParseLineSpec("# c");
    TrimOfTrimmed("# c");
    assert '=' !in "# c";
  }

  /** A hover on the second line over a defined name shows its definition. */
  lemma HoverExample()
    ensures HoverText(map["KEY" := [Definition(".env", "KEY", "1")]], "x\nKEY y", Position(1, 1))
            == Some(".env\nKEY = 1")
  {
    var contents := "x\nKEY y";
    assert LineStart(contents, 1) == 2;
    var rest := contents[2..];
    assert rest == "KEY y";
    assert Utf16Prefix(rest, 1) == 1 && Utf16Prefix(rest, 2) == 2 && Utf16Prefix(rest, 3) == 3;
    assert IsToken(rest, 1, 0, 3);
    TokenBoundsUnique(rest, 1, 0, 3);
    assert rest[0..3] == "KEY";
    assert RenderDefinition(Definition(".env", "KEY", "1")) == ".env\nKEY = 1";
  }

  /** The scan does not stop at the end of the line: a column past the end
      of line 0 looks up the first word of line 1. */
  lemma HoverCrossesLineFeed()
    ensures HoverText(map["cd" := [Definition(".env", "cd", "1")]], "ab\ncd", Position(0, 4))
            == Some(".env\ncd = 1")
  {
    var rest := "ab\ncd";
    assert LineStart(rest, 0) == 0;
    assert rest[0..] == rest;
    assert Utf16Prefix(rest, 3) == 3 && Utf16Prefix(rest, 4) == 4 && Utf16Prefix(rest, 5) == 5;
    assert IsToken(rest, 4, 3, 5);
    TokenBoundsUnique(rest, 4, 3, 5);
    assert rest[3..5] == "cd";
    assert RenderDefinition(Definition(".env", "cd", "1")) == ".env\ncd = 1";
  }

  // ---------------------------------------------------------------------------
  // The handler

  class PropsHandler {
    var propFiles: seq<string>
    var definitions: map<string, seq<Definition>>

    /** `PropsHandler::new`: find the files from the working directory's
        levels, then parse them. */
    constructor (levels: seq<Level>, fs: map<string, string>)
      ensures propFiles == PropFiles(levels)
      ensures definitions == Index(AllDefinitions(propFiles, fs))
    {
      var files := GetPropFiles(levels);
      propFiles := files;
      definitions := map[];
      new;
      ParseFiles(fs);
    }

    /** `parse_files`: rebuild the index from the files, in file order and
        then line order, skipping the files that cannot be read. */
    method ParseFiles(fs: map<string, string>)
      modifies this
      ensures propFiles == old(propFiles)
      ensures definitions == Index(AllDefinitions(propFiles, fs))
    {
      definitions := map[];
      var files := propFiles;
      var i := 0;
      while i < |files|
        invariant 0 <= i <= |files|
        invariant propFiles == files
        invariant definitions == Index(AllDefinitions(files[..i], fs))
      {
        var file := files[i];
        FileStep(files, fs, i);
        if file in fs {
          ParseContents(file, fs[file], AllDefinitions(files[..i], fs));
        }
        i := i + 1;
      }
      assert files[..i] == files;
    }

    /** The body of `parse_files` for one readable file: push the
        definition of each of its lines, in order. */
    method ParseContents(file: string, contents: string, ghost done: seq<Definition>)
      requires definitions == Index(done)
      modifies this
      ensures propFiles == old(propFiles)
      ensures definitions == Index(done + LineDefinitions(file, Lines(contents)))
    {
      var lines := Lines(contents);
      LinesStart(done, file, lines);
      ghost var seen := done;
      var defs := definitions;
      var j := 0;
      while j < |lines|
        invariant 0 <= j <= |lines|
        invariant seen == done + LineDefinitions(file, lines[..j])
        invariant defs == Index(seen)
        modifies {}
      {
        var line := lines[j];
        LineStep(done, file, lines, j);
        LineIndexStep(seen, file, line);
        match ParseLine(line) {
          case None =>
          case Some(nv) =>
            defs := Push(defs, Definition(file, nv.0, nv.1));
        }
        seen := seen + LineDefinition(file, line);
        j := j + 1;
      }
      assert lines[..j] == lines;
      definitions := defs;
    }

    /** `hover`: find the start of the line, then the token at the column,
        then its definitions. It never fails. */
    method Hover(contents: string, position: Position) returns (r: Result<Option<string>, HandlerError>)
      ensures r == Ok(HoverText(definitions, contents, position))
    {
      var bytesTraversed := 0;
      var curLine := 0;
      var i := 0;
      while i < |contents|
        invariant 0 <= i <= |contents|
        invariant SkipLines(contents, position.line, i, curLine) == LineStart(contents, position.line)
        invariant bytesTraversed == Utf8Prefix(contents, i)
      {
        if curLine == position.line {
          break;
        }
        var c := contents[i];
        bytesTraversed := bytesTraversed + Utf8Width(c);
        if c == '\n' {
          curLine := curLine + 1;
        }
        i := i + 1;
      }
      var rest := contents[i..];

      var col := position.character;
      var fv := 0;
      var firstValid := 0;
      bytesTraversed := 0;
      var numCharsInLine: nat := 0;
      var j := 0;
      while j < |rest|
        invariant fv <= j <= |rest|
        invariant Scan(rest, col, j, fv, numCharsInLine) == TokenBounds(rest, col)
        invariant bytesTraversed == Utf8Prefix(rest, j)
        invariant firstValid == Utf8Prefix(rest, fv)
        invariant numCharsInLine == Utf16Prefix(rest, j)
      {
        var c := rest[j];
        if !IsWordChar(c) {
          if numCharsInLine >= col {
            break;
          } else {
            fv := j + 1;
            firstValid := bytesTraversed + Utf8Width(c);
          }
        }
        bytesTraversed := bytesTraversed + Utf8Width(c);
        numCharsInLine := numCharsInLine + Utf16Width(c);
        j := j + 1;
      }

      if fv < j {
        PrefixGrows(rest, fv, j);
      }
      if firstValid >= bytesTraversed || numCharsInLine <= col {
        return Ok(None);
      }
      var name := rest[fv..j];
      if name in definitions {
        return Ok(Some(Render(definitions[name])));
      }
      return Ok(None);
    }

    /** The handler takes every filetype. */
    function FiletypeSupported(filetype: string): (r: bool)
      ensures r
    {
      true
    }

    /** The handler offers completion and hover, and nothing else. */
    function GetCapabilities(): (c: Capabilities.Capabilities)
      ensures c.Keys == {Capabilities.CompletionProvider, Capabilities.HoverProvider}
    {
      map[Capabilities.CompletionProvider := Capabilities.Opaque("label details"),
          Capabilities.HoverProvider := Capabilities.Opaque("simple")]
    }
  }
}
