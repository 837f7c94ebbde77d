/** Text utilities the core relies on: the character classes it tests,
    scanning for the end of a run, `str::trim`, `str::split_once`-style
    search, `str::lines`, and the UTF-8 / UTF-16 widths of characters.
    A Dafny `char` is a Unicode scalar value. */
module Text {

  /** ASCII letters, digits and `_`: `is_ascii_alphanumeric() || c == '_'`,
      and the (ASCII-simplified) class `\w`. */
  predicate IsWordChar(c: char) {
    ('a' <= c <= 'z') || ('A' <= c <= 'Z') || ('0' <= c <= '9') || c == '_'
  }

  /** ASCII digits: the (ASCII-simplified) class `\d`. */
  predicate IsDigit(c: char) {
    '0' <= c <= '9'
  }

  /** ASCII white space (space, tab, line feed, vertical tab, form feed,
      carriage return): the (ASCII-simplified) class `\s` and what `trim`
      removes. */
  predicate IsWhitespace(c: char) {
    c == ' ' || ('\t' <= c <= '\r')
  }

  // ---------------------------------------------------------------------------
  // Runs and searches

  /** End of the run of word characters that starts at `i`. */
  function WordEnd(t: string, i: nat): (e: nat)
    requires i <= |t|
    ensures i <= e <= |t|
    ensures forall k :: i <= k < e ==> IsWordChar(t[k])
    ensures e == |t| || !IsWordChar(t[e])
    decreases |t| - i
  {
    if i < |t| && IsWordChar(t[i]) then WordEnd(t, i + 1) else i
  }

  /** End of the run of digits that starts at `i`. */
  function DigitEnd(t: string, i: nat): (e: nat)
    requires i <= |t|
    ensures i <= e <= |t|
    ensures forall k :: i <= k < e ==> IsDigit(t[k])
    ensures e == |t| || !IsDigit(t[e])
    decreases |t| - i
  {
    if i < |t| && IsDigit(t[i]) then DigitEnd(t, i + 1) else i
  }

  /** Index of the first `c` at or after `i`, or `|t|` when there is none. */
  function Find(t: string, c: char, i: nat): (k: nat)
    requires i <= |t|
    ensures i <= k <= |t|
    ensures forall j :: i <= j < k ==> t[j] != c
    ensures k == |t| || t[k] == c
    decreases |t| - i
  {
    if i == |t| || t[i] == c then i else Find(t, c, i + 1)
  }

  /** `Find` is determined by its contract: the first `c` is unique. */
  lemma FindIsUnique(t: string, c: char, i: nat, k: nat)
    requires i <= k <= |t|
    requires forall j :: i <= j < k ==> t[j] != c
    requires k == |t| || t[k] == c
    ensures Find(t, c, i) == k
  {
  }

  /** A stretch of text without `c` gives a slice without `c`. */
  lemma NotInSlice(t: string, c: char, lo: nat, hi: nat)
    requires lo <= hi <= |t|
    requires forall k :: lo <= k < hi ==> t[k] != c
    ensures c !in t[lo..hi]
  {
    var piece := t[lo..hi];
    assert forall k :: 0 <= k < |piece| ==> piece[k] == t[lo + k];
  }

  // ---------------------------------------------------------------------------
  // trim

  /** Number of leading white-space characters. */
  function LeadingSpace(s: string): (i: nat)
    ensures i <= |s|
    ensures forall k :: 0 <= k < i ==> IsWhitespace(s[k])
    ensures i == |s| || !IsWhitespace(s[i])
  {
    if |s| == 0 || !IsWhitespace(s[0]) then 0 else 1 + LeadingSpace(s[1..])
  }

  /** Length of `s` without its trailing white space. */
  function TrailingStart(s: string): (j: nat)
    ensures j <= |s|
    ensures forall k :: j <= k < |s| ==> IsWhitespace(s[k])
    ensures j == 0 || !IsWhitespace(s[j - 1])
  {
    if |s| == 0 || !IsWhitespace(s[|s| - 1]) then |s| else TrailingStart(s[..|s| - 1])
  }

  /** `str::trim`: `s` without leading and trailing white space. */
  function Trim(s: string): (r: string)
    ensures |r| == 0 || (!IsWhitespace(r[0]) && !IsWhitespace(r[|r| - 1]))
    ensures |r| <= |s|
    ensures |r| == 0 ==> forall k :: 0 <= k < |s| ==> IsWhitespace(s[k])
    ensures |r| > 0 ==> LeadingSpace(s) < TrailingStart(s) && r == s[LeadingSpace(s)..TrailingStart(s)]
  {
    var i, j := LeadingSpace(s), TrailingStart(s);
    if i >= j then
      []
    else
      s[i..j]
  }

  /** Text that neither starts nor ends with white space is its own trim. */
  lemma TrimOfTrimmed(s: string)
    requires |s| == 0 || (!IsWhitespace(s[0]) && !IsWhitespace(s[|s| - 1]))
    ensures Trim(s) == s
  {
    var i, j := LeadingSpace(s), TrailingStart(s);
    if |s| > 0 {
      assert i == 0;
      assert j == |s|;
    }
  }

  // ---------------------------------------------------------------------------
  // Splitting into lines

  /** Split `t` at every `c`; `n` separators give `n + 1` pieces. */
  function SplitOn(t: string, c: char): (parts: seq<string>)
    ensures |parts| >= 1
    ensures forall k :: 0 <= k < |parts| ==> c !in parts[k]
    decreases |t|
  {
    var k := Find(t, c, 0);
    if k == |t| then
      [t]
    else
      var rest := SplitOn(t[k + 1..], c);
      assert forall j :: 0 <= j < |rest| ==> (([t[..k]] + rest)[j + 1] == rest[j]);
      [t[..k]] + rest
  }

  /** The pieces put back together with `c` between them. */
  function JoinWith(parts: seq<string>, c: char): string
    requires |parts| >= 1
  {
    if |parts| == 1 then parts[0] else parts[0] + [c] + JoinWith(parts[1..], c)
  }

  /** Splitting loses nothing: joining the pieces gives the text back. */
  lemma {:induction false} SplitJoin(t: string, c: char)
    ensures JoinWith(SplitOn(t, c), c) == t
    decreases |t|
  {
    var k := Find(t, c, 0);
    if k < |t| {
      SplitJoin(t[k + 1..], c);
      var parts := SplitOn(t, c);
      assert parts == [t[..k]] + SplitOn(t[k + 1..], c);
      assert parts[1..] == SplitOn(t[k + 1..], c);
      assert t == t[..k] + [c] + t[k + 1..];
    }
  }

  /** The last piece of a split is empty exactly when the text ends with
      the separator (or is empty). */
  lemma {:induction false} SplitLastEmpty(t: string, c: char)
    ensures var parts := SplitOn(t, c);
            parts[|parts| - 1] == [] <==> (|t| == 0 || t[|t| - 1] == c)
    decreases |t|
  {
    var k := Find(t, c, 0);
    if k < |t| {
      var rest := t[k + 1..];
      SplitLastEmpty(rest, c);
      if |rest| > 0 {
        assert rest[|rest| - 1] == t[|t| - 1];
      }
    }
  }

  /** Joining splits off at the last piece. */
  lemma {:induction false} JoinLast(parts: seq<string>, c: char)
    requires |parts| >= 2
    ensures JoinWith(parts, c) == JoinWith(parts[..|parts| - 1], c) + [c] + parts[|parts| - 1]
    decreases |parts|
  {
    if |parts| > 2 {
      JoinLast(parts[1..], c);
      assert parts[1..][..|parts| - 2] == parts[..|parts| - 1][1..];
    }
  }

  /** `str::lines`: the pieces between line feeds, without a final empty
      piece when the text ends with a line feed (so `""` has no lines). */
  function Lines(t: string): (ls: seq<string>)
    ensures forall k :: 0 <= k < |ls| ==> '\n' !in ls[k]
    ensures |t| == 0 ==> ls == []
    ensures '\n' !in t && |t| > 0 ==> ls == [t]
  {
    var parts := SplitOn(t, '\n');
    if parts[|parts| - 1] == [] then parts[..|parts| - 1] else parts
  }

  /** The lines, joined by line feeds, give the text back, without the
      line feed that ends the last line. */
  lemma LinesJoin(t: string)
    requires |t| > 0
    ensures t[|t| - 1] != '\n' ==> |Lines(t)| >= 1 && JoinWith(Lines(t), '\n') == t
    ensures t[|t| - 1] == '\n' ==> |Lines(t)| >= 1 && JoinWith(Lines(t), '\n') + "\n" == t
  {
    var parts := SplitOn(t, '\n');
    SplitJoin(t, '\n');
    SplitLastEmpty(t, '\n');
    if t[|t| - 1] == '\n' {
      assert |parts| >= 2;
      JoinLast(parts, '\n');
    }
  }

  // ---------------------------------------------------------------------------
  // Encoded widths

  /** `char::len_utf8`. */
  function Utf8Width(c: char): (n: nat)
    ensures 1 <= n <= 4
  {
    if c as int < 0x80 then 1
    else if c as int < 0x800 then 2
    else if c as int < 0x1_0000 then 3
    else 4
  }

  /** `char::len_utf16`: one code unit inside the Basic Multilingual Plane,
      a surrogate pair outside it. */
  function Utf16Width(c: char): (n: nat)
    ensures 1 <= n <= 2
    ensures n <= Utf8Width(c)
    ensures (n == Utf8Width(c)) <==> c as int < 0x80
  {
    if c as int < 0x1_0000 then 1 else 2
  }

  /** Length in bytes of the UTF-8 encoding of the first `k` characters
      of `s`. */
  function Utf8Prefix(s: string, k: nat): nat
    requires k <= |s|
  {
    if k == 0 then 0 else Utf8Prefix(s, k - 1) + Utf8Width(s[k - 1])
  }

  /** Length in UTF-16 code units of the first `k` characters of `s`. */
  function Utf16Prefix(s: string, k: nat): nat
    requires k <= |s|
  {
    if k == 0 then 0 else Utf16Prefix(s, k - 1) + Utf16Width(s[k - 1])
  }

  /** More characters take more bytes and more code units. */
  lemma {:induction false} PrefixGrows(s: string, i: nat, j: nat)
    requires i < j <= |s|
    ensures Utf8Prefix(s, i) < Utf8Prefix(s, j)
    ensures Utf16Prefix(s, i) < Utf16Prefix(s, j)
    decreases j - i
  {
    if i < j - 1 {
      PrefixGrows(s, i, j - 1);
    }
  }

  /** Text never takes fewer UTF-8 bytes than UTF-16 code units. */
  lemma {:induction false} Utf8AtLeastUtf16(s: string, k: nat)
    requires k <= |s|
    ensures Utf16Prefix(s, k) <= Utf8Prefix(s, k)
  {
    if k > 0 {
      Utf8AtLeastUtf16(s, k - 1);
    }
  }
}
