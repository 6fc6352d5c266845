/** String operations of Rust's standard library that the dock relies on,
    written over `seq<char>`: ASCII lower-casing, Unicode whitespace trimming,
    substring search, `lines()`, `split`, `split_whitespace`, `replace`,
    decimal printing and the `u8` parsers. */
module Text {
  import opened Wrappers

  // ---------------------------------------------------------------- characters

  /** Lower-casing of one character; only ASCII letters change. */
  function LowerChar(c: char): char {
    if 'A' <= c <= 'Z' then (c as int + 32) as char else c
  }

  /** `to_lowercase`, restricted to ASCII. */
  function Lower(s: string): (r: string)
    ensures |r| == |s|
    ensures forall i :: 0 <= i < |s| ==> r[i] == LowerChar(s[i])
  {
    if s == [] then [] else [LowerChar(s[0])] + Lower(s[1..])
  }

  /** Lower-casing twice is lower-casing once. */
  lemma LowerIdempotent(s: string)
    ensures Lower(Lower(s)) == Lower(s)
  {
    assert forall i :: 0 <= i < |s| ==> LowerChar(LowerChar(s[i])) == LowerChar(s[i]);
  }

  /** "Firefox", "firefox" and "FIREFOX" all lower-case to "firefox". */
  lemma FirefoxSpellings()
    ensures Lower("Firefox") == "firefox" && Lower("firefox") == "firefox" && Lower("FIREFOX") == "firefox"
  {
    var a, b, c := Lower("Firefox"), Lower("firefox"), Lower("FIREFOX");
    assert a[0] == b[0] == c[0] == 'f';
  }

  /** Rust's `char::is_whitespace`: the Unicode White_Space property. */
  predicate IsWhitespace(c: char) {
    ('\t' <= c <= '\r') || c == ' ' || c == '\U{85}' || c == '\U{A0}' || c == '\U{1680}'
    || ('\U{2000}' <= c <= '\U{200A}') || c == '\U{2028}' || c == '\U{2029}'
    || c == '\U{202F}' || c == '\U{205F}' || c == '\U{3000}'
  }

  predicate IsDigit(c: char) { '0' <= c <= '9' }

  /** The value of a hexadecimal digit, as `char::to_digit(16)`. */
  function HexDigit(c: char): Option<nat> {
    if '0' <= c <= '9' then Some(c as int - '0' as int)
    else if 'a' <= c <= 'f' then Some(c as int - 'a' as int + 10)
    else if 'A' <= c <= 'F' then Some(c as int - 'A' as int + 10)
    else None
  }

  // ------------------------------------------------------------------ trimming

  function TrimStart(s: string): (r: string)
    ensures |r| <= |s| && r == s[|s| - |r|..]
    ensures r != [] ==> !IsWhitespace(r[0])
  {
    if s != [] && IsWhitespace(s[0]) then TrimStart(s[1..]) else s
  }

  function TrimEnd(s: string): (r: string)
    ensures |r| <= |s| && r == s[..|r|]
    ensures r != [] ==> !IsWhitespace(r[|r| - 1])
  {
    if s != [] && IsWhitespace(s[|s| - 1]) then TrimEnd(s[..|s| - 1]) else s
  }

  /** `str::trim`. */
  function Trim(s: string): (r: string)
    ensures |r| <= |s|
    ensures r != [] ==> !IsWhitespace(r[0]) && !IsWhitespace(r[|r| - 1])
  {
    var t := TrimStart(s);
    var r := TrimEnd(t);
    assert r != [] ==> r[0] == t[0];
    r
  }

  /** `trim_matches(c)`: strips every leading and trailing `c`. */
  function TrimMatches(s: string, c: char): (r: string)
    ensures |r| <= |s|
    decreases |s|
  {
    if s != [] && s[0] == c then TrimMatches(s[1..], c)
    else if s != [] && s[|s| - 1] == c then TrimMatches(s[..|s| - 1], c)
    else s
  }

  // ----------------------------------------------------------------- searching

  predicate StartsWith(s: string, prefix: string) { prefix <= s }

  predicate EndsWith(s: string, suffix: string) {
    |suffix| <= |s| && s[|s| - |suffix|..] == suffix
  }

  /** `str::contains` with a string pattern (the empty pattern is everywhere). */
  predicate Contains(s: string, sub: string) {
    sub <= s || (s != [] && Contains(s[1..], sub))
  }

  lemma ContainsItself(s: string)
    ensures Contains(s, s)
  {
  }

  /** `strip_prefix`. */
  function StripPrefix(s: string, prefix: string): (r: Option<string>)
    ensures r.Some? <==> StartsWith(s, prefix)
    ensures r.Some? ==> s == prefix + r.value
  {
    if prefix <= s then Some(s[|prefix|..]) else None
  }

  /** `strip_suffix`. */
  function StripSuffix(s: string, suffix: string): (r: Option<string>)
    ensures r.Some? <==> EndsWith(s, suffix)
    ensures r.Some? ==> s == r.value + suffix
  {
    if EndsWith(s, suffix) then Some(s[..|s| - |suffix|]) else None
  }

  /** Index of the first occurrence of `c`. */
  function IndexOf(s: string, c: char): (r: Option<nat>)
    ensures r.Some? ==> r.value < |s| && s[r.value] == c && c !in s[..r.value]
    ensures r.None? ==> c !in s
  {
    if s == [] then None
    else if s[0] == c then Some(0)
    else match IndexOf(s[1..], c)
      case None => None
      case Some(i) => Some(i + 1)
  }

  // ----------------------------------------------------------------- splitting

  /** `split_once(c)`: the text before and after the first `c`. */
  function SplitOnce(s: string, c: char): (r: Option<(string, string)>)
    ensures r.None? <==> c !in s
    ensures r.Some? ==> s == r.value.0 + [c] + r.value.1 && c !in r.value.0
  {
    match IndexOf(s, c)
    case None => None
    case Some(i) =>
      assert s == s[..i] + [c] + s[i + 1..];
      Some((s[..i], s[i + 1..]))
  }

  /** `split(c)`: always at least one piece; the separators are dropped. */
  function Split(s: string, c: char): (r: seq<string>)
    ensures |r| >= 1
    ensures forall i :: 0 <= i < |r| ==> c !in r[i]
    decreases |s|
  {
    match IndexOf(s, c)
    case None => [s]
    case Some(i) => [s[..i]] + Split(s[i + 1..], c)
  }

  /** The first piece ends at the first `c`. */
  lemma SplitAt(s: string, c: char, i: nat)
    requires i < |s| && s[i] == c && c !in s[..i]
    ensures Split(s, c) == [s[..i]] + Split(s[i + 1..], c)
  {
    var j := IndexOf(s, c).value;
    forall k | 0 <= k < i ensures s[k] != c {
      assert s[..i][k] == s[k];
    }
    forall k | 0 <= k < j ensures s[k] != c {
      assert s[..j][k] == s[k];
    }
  }

  function StripCarriageReturn(line: string): string {
    if line != [] && line[|line| - 1] == '\r' then line[..|line| - 1] else line
  }

  /** `str::lines`: split after each '\n', drop the '\n' and one '\r' before it;
      a final line ending yields no extra empty line. */
  function Lines(s: string): (r: seq<string>)
    ensures s == [] <==> r == []
    decreases |s|
  {
    if s == [] then []
    else match IndexOf(s, '\n')
      case None => [s]
      case Some(i) => [StripCarriageReturn(s[..i])] + Lines(s[i + 1..])
  }

  /** Length of the leading run of non-whitespace characters. */
  function WordLength(s: string): (n: nat)
    ensures n <= |s|
    ensures s != [] && !IsWhitespace(s[0]) ==> n > 0
    ensures forall i :: 0 <= i < n ==> !IsWhitespace(s[i])
    ensures n < |s| ==> IsWhitespace(s[n])
  {
    if s == [] || IsWhitespace(s[0]) then 0 else 1 + WordLength(s[1..])
  }

  predicate IsWord(w: string) {
    w != [] && forall i :: 0 <= i < |w| ==> !IsWhitespace(w[i])
  }

  /** `split_whitespace`: the maximal non-empty runs of non-whitespace. */
  function SplitWhitespace(s: string): seq<string>
    decreases |s|
  {
    var t := TrimStart(s);
    if t == [] then []
    else
      var n := WordLength(t);
      [t[..n]] + SplitWhitespace(t[n..])
  }

  /** Every element is a word. */
  predicate AllWords(words: seq<string>) {
    forall i :: 0 <= i < |words| ==> IsWord(words[i])
  }

  /** The leading run of a text that starts with a non-whitespace character
      is a word. */
  lemma LeadingWord(t: string)
    requires t != [] && !IsWhitespace(t[0])
    ensures IsWord(t[..WordLength(t)])
  {
    var w := t[..WordLength(t)];
    forall i | 0 <= i < |w| ensures !IsWhitespace(w[i]) {
      assert w[i] == t[i];
    }
  }

  lemma AllWordsCons(w: string, rest: seq<string>)
    requires IsWord(w) && AllWords(rest)
    ensures AllWords([w] + rest)
  {
    forall i | 0 <= i < |[w] + rest| ensures IsWord(([w] + rest)[i]) {
      if i > 0 { assert ([w] + rest)[i] == rest[i - 1]; }
    }
  }

  /** Every piece of `split_whitespace` is a word. */
  lemma {:induction false} SplitWhitespaceWords(s: string)
    ensures AllWords(SplitWhitespace(s))
    decreases |s|
  {
    var t := TrimStart(s);
    if t != [] {
      var n := WordLength(t);
      LeadingWord(t);
      SplitWhitespaceWords(t[n..]);
      AllWordsCons(t[..n], SplitWhitespace(t[n..]));
    }
  }

  /** `split_whitespace().next()`. */
  function FirstWord(s: string): (r: Option<string>)
    ensures r.Some? ==> IsWord(r.value)
  {
    var words := SplitWhitespace(s);
    SplitWhitespaceWords(s);
    if words == [] then None else Some(words[0])
  }

  /** The first word is the leading run of non-whitespace after the leading
      whitespace; there is none exactly when the text is all whitespace. */
  lemma FirstWordSpec(s: string)
    ensures FirstWord(s).None? <==> TrimStart(s) == []
    ensures FirstWord(s).Some? ==>
      var t, w := TrimStart(s), FirstWord(s).value;
      StartsWith(t, w) && (|w| == |t| || IsWhitespace(t[|w|]))
  {
  }

  /** `join(sep)`. */
  function Join(parts: seq<string>, sep: string): string {
    if parts == [] then []
    else if |parts| == 1 then parts[0]
    else parts[0] + sep + Join(parts[1..], sep)
  }

  /** Splitting on `c` and joining with `c` gives the text back. */
  lemma {:induction false} SplitJoin(s: string, c: char)
    ensures Join(Split(s, c), [c]) == s
    decreases |s|
  {
    match IndexOf(s, c)
    case None =>
    case Some(i) =>
      var rest := Split(s[i + 1..], c);
      SplitJoin(s[i + 1..], c);
      assert Split(s, c) == [s[..i]] + rest;
      assert ([s[..i]] + rest)[1..] == rest;
      assert s == s[..i] + [c] + s[i + 1..];
  }

  /** The last part of a join comes after the last separator. */
  lemma {:induction false} JoinLast(parts: seq<string>, sep: string)
    requires |parts| > 1
    ensures Join(parts, sep) == Join(parts[..|parts| - 1], sep) + sep + parts[|parts| - 1]
  {
    if |parts| > 2 {
      JoinLast(parts[1..], sep);
      assert parts[1..][..|parts| - 2] == parts[..|parts| - 1][1..];
    }
  }

  /** The last piece of a split is a suffix without `c`, either the whole
      text or preceded by `c`. */
  lemma SplitLast(s: string, c: char)
    ensures var last := Split(s, c)[|Split(s, c)| - 1];
      EndsWith(s, last) && (last == s || s[|s| - |last| - 1] == c)
  {
    SplitJoin(s, c);
    JoinedLast(Split(s, c), c, s);
  }

  /** The last joined piece ends the text: it is the whole text, or it
      follows a separator. */
  lemma JoinedLast(pieces: seq<string>, c: char, s: string)
    requires |pieces| >= 1 && Join(pieces, [c]) == s
    ensures var last := pieces[|pieces| - 1];
      EndsWith(s, last) && (last == s || (|last| < |s| && s[|s| - |last| - 1] == c))
  {
    var last := pieces[|pieces| - 1];
    if |pieces| == 1 {
      assert last[|last| - |last|..] == last;
    } else {
      JoinLast(pieces, [c]);
      AppendSuffix(Join(pieces[..|pieces| - 1], [c]), c, last);
    }
  }

  /** What follows the last separator ends the text, right after that separator. */
  lemma AppendSuffix(init: string, c: char, last: string)
    ensures var s := init + [c] + last;
      EndsWith(s, last) && s[|s| - |last| - 1] == c
  {
    var s := init + [c] + last;
    assert s[|s| - |last|..] == last;
  }

  /** Text with no leading or trailing whitespace, in which every whitespace
      character is a single space between two non-whitespace characters. */
  predicate SingleSpaced(r: string) {
    (r != [] ==> !IsWhitespace(r[0]) && !IsWhitespace(r[|r| - 1]))
    && forall i :: 0 <= i < |r| && IsWhitespace(r[i]) ==>
         r[i] == ' ' && i + 1 < |r| && !IsWhitespace(r[i + 1])
  }

  /** Words joined by single spaces are single-spaced. */
  lemma {:induction false} JoinWordsSingleSpaced(words: seq<string>)
    requires AllWords(words)
    ensures SingleSpaced(Join(words, " "))
    ensures words != [] ==> Join(words, " ") != []
  {
    if |words| > 1 {
      var w, rest := words[0], Join(words[1..], " ");
      JoinWordsSingleSpaced(words[1..]);
      var r := w + " " + rest;
      assert Join(words, " ") == r;
      forall i | 0 <= i < |r| && IsWhitespace(r[i])
        ensures r[i] == ' ' && i + 1 < |r| && !IsWhitespace(r[i + 1])
      {
        if i > |w| {
          assert r[i] == rest[i - |w| - 1];
        }
      }
    }
  }

  /** Removing leading whitespace first changes nothing for `split_whitespace`. */
  lemma SplitWhitespaceTrimStart(s: string)
    ensures SplitWhitespace(TrimStart(s)) == SplitWhitespace(s)
  {
    TrimStartIdempotent(s);
  }

  lemma {:induction false} TrimStartIdempotent(s: string)
    ensures TrimStart(TrimStart(s)) == TrimStart(s)
  {
    if s != [] && IsWhitespace(s[0]) {
      TrimStartIdempotent(s[1..]);
    }
  }

  /** `WordLength` is the one length that ends the leading run. */
  lemma {:induction false} WordLengthIs(s: string, m: nat)
    requires m <= |s| && (forall i :: 0 <= i < m ==> !IsWhitespace(s[i]))
    requires m < |s| ==> IsWhitespace(s[m])
    ensures WordLength(s) == m
  {
    if m > 0 {
      WordLengthIs(s[1..], m - 1);
    }
  }

  /** A word followed by whitespace (or nothing) is the first piece. */
  lemma SplitWhitespaceWord(w: string, rest: string)
    requires IsWord(w) && (rest == [] || IsWhitespace(rest[0]))
    ensures SplitWhitespace(w + rest) == [w] + SplitWhitespace(rest)
  {
    var s := w + rest;
    assert TrimStart(s) == s;
    WordLengthIs(s, |w|);
    assert s[..|w|] == w && s[|w|..] == rest;
    SplitWhitespaceTrimStart(rest);
  }

  /** A single space before a word is skipped. */
  lemma SplitWhitespaceSpace(rest: string)
    ensures SplitWhitespace(" " + rest) == SplitWhitespace(rest)
  {
    assert (" " + rest)[1..] == rest;
    assert TrimStart(" " + rest) == TrimStart(rest);
    SplitWhitespaceTrimStart(" " + rest);
    SplitWhitespaceTrimStart(rest);
  }

  lemma JoinSpaceCons(w: string, tail: seq<string>)
    requires tail != []
    ensures Join([w] + tail, " ") == w + (" " + Join(tail, " "))
  {
    assert ([w] + tail)[1..] == tail;
  }

  /** A word, a space, and more text: the word is the first piece. */
  lemma SplitWhitespaceWordSpace(w: string, rest: string)
    requires IsWord(w)
    ensures SplitWhitespace(w + (" " + rest)) == [w] + SplitWhitespace(rest)
  {
    SplitWhitespaceWord(w, " " + rest);
    SplitWhitespaceSpace(rest);
  }

  /** Joining words with single spaces and splitting on whitespace gives the
      words back. */
  lemma {:induction false} SplitJoinWords(words: seq<string>)
    requires AllWords(words)
    ensures SplitWhitespace(Join(words, " ")) == words
  {
    if |words| == 1 {
      SplitOneWord(words);
    } else if |words| > 1 {
      AllWordsTail(words);
      SplitJoinWords(words[1..]);
      SplitJoinCons(words);
    }
  }

  lemma SplitOneWord(words: seq<string>)
    requires |words| == 1 && AllWords(words)
    ensures SplitWhitespace(Join(words, " ")) == words
  {
    SplitWord(words[0]);
    Singleton(words);
  }

  /** A word alone splits to itself. */
  lemma SplitWord(w: string)
    requires IsWord(w)
    ensures SplitWhitespace(w) == [w]
  {
    SplitWhitespaceWord(w, []);
    assert w + [] == w;
  }

  lemma Singleton<T>(s: seq<T>)
    requires |s| == 1
    ensures [s[0]] == s
  {
  }

  lemma AllWordsTail(words: seq<string>)
    requires AllWords(words) && words != []
    ensures AllWords(words[1..])
  {
    assert forall i :: 0 <= i < |words[1..]| ==> words[1..][i] == words[i + 1];
  }

  lemma SplitJoinCons(words: seq<string>)
    requires |words| > 1 && AllWords(words)
    requires SplitWhitespace(Join(words[1..], " ")) == words[1..]
    ensures SplitWhitespace(Join(words, " ")) == words
  {
    assert IsWord(words[0]);
    HeadTail(words);
    SplitJoinWordCons(words[0], words[1..]);
  }

  lemma HeadTail<T>(s: seq<T>)
    requires s != []
    ensures [s[0]] + s[1..] == s
  {
  }

  /** One more word in front of words that split back. */
  lemma SplitJoinWordCons(w: string, tail: seq<string>)
    requires IsWord(w) && tail != [] && SplitWhitespace(Join(tail, " ")) == tail
    ensures SplitWhitespace(Join([w] + tail, " ")) == [w] + tail
  {
    calc {
      SplitWhitespace(Join([w] + tail, " "));
      { JoinSpaceCons(w, tail); }
      SplitWhitespace(w + (" " + Join(tail, " ")));
      { SplitWhitespaceWordSpace(w, Join(tail, " ")); }
      [w] + SplitWhitespace(Join(tail, " "));
    }
  }

  /** `split_whitespace().collect::<Vec<_>>().join(" ")`. */
  function CollapseWhitespace(s: string): (r: string)
    ensures SingleSpaced(r)
  {
    SplitWhitespaceWords(s);
    JoinWordsSingleSpaced(SplitWhitespace(s));
    Join(SplitWhitespace(s), " ")
  }

  /** Collapsing keeps the words and is idempotent. */
  lemma CollapseWhitespaceWords(s: string)
    ensures SplitWhitespace(CollapseWhitespace(s)) == SplitWhitespace(s)
    ensures CollapseWhitespace(CollapseWhitespace(s)) == CollapseWhitespace(s)
  {
    SplitWhitespaceWords(s);
    SplitJoinWords(SplitWhitespace(s));
  }

  /** `str::replace` with a non-empty pattern: non-overlapping, left to right. */
  function ReplaceAll(s: string, pattern: string, replacement: string): string
    requires pattern != []
  {
    if |s| < |pattern| then s
    else if pattern <= s then replacement + ReplaceAll(s[|pattern|..], pattern, replacement)
    else [s[0]] + ReplaceAll(s[1..], pattern, replacement)
  }

  /** Replacing a pattern that does not occur changes nothing. */
  lemma {:induction false} ReplaceAbsent(s: string, pattern: string, replacement: string)
    requires pattern != [] && !Contains(s, pattern)
    ensures ReplaceAll(s, pattern, replacement) == s
  {
    if |s| >= |pattern| {
      ReplaceAbsent(s[1..], pattern, replacement);
    }
  }

  /** Replacing a one-character pattern by a one-character text keeps the length. */
  lemma {:induction false} ReplaceCharLength(s: string, c: char, d: char)
    ensures |ReplaceAll(s, [c], [d])| == |s|
  {
    if s != [] {
      ReplaceCharLength(s[1..], c, d);
    }
  }

  // -------------------------------------------------------------------- numbers

  function DigitChar(d: nat): char
    requires d < 10
  {
    ('0' as int + d) as char
  }

  /** Decimal text of a natural number (`format!("{}", n)`). */
  function NatToString(n: nat): (r: string)
    ensures r != [] && forall i :: 0 <= i < |r| ==> IsDigit(r[i])
  {
    if n < 10 then [DigitChar(n)] else NatToString(n / 10) + [DigitChar(n % 10)]
  }

  /** Decimal text of a signed integer (`i64::to_string`). */
  function IntToString(i: int): string {
    if i < 0 then "-" + NatToString(-i) else NatToString(i)
  }

  /** The value of a string of decimal digits. */
  function DecimalValue(s: string): nat
    requires forall i :: 0 <= i < |s| ==> IsDigit(s[i])
  {
    if s == [] then 0
    else
      assert IsDigit(s[|s| - 1]);
      DecimalValue(s[..|s| - 1]) * 10 + (s[|s| - 1] as int - '0' as int)
  }

  /** Decimal printing is undone by reading the digits back. */
  lemma {:induction false} DecimalRoundTrip(n: nat)
    ensures DecimalValue(NatToString(n)) == n
  {
    if n >= 10 {
      var s := NatToString(n);
      assert s[..|s| - 1] == NatToString(n / 10);
      DecimalRoundTrip(n / 10);
    }
  }

  /** Distinct numbers print differently. */
  lemma NatToStringInjective(m: nat, n: nat)
    requires NatToString(m) == NatToString(n)
    ensures m == n
  {
    DecimalRoundTrip(m);
    DecimalRoundTrip(n);
  }

  /** The value of a string of digits in base `radix` (digits checked by the caller). */
  function DigitsValue(s: string, radix: nat): Option<nat>
    requires radix == 10 || radix == 16
  {
    if s == [] then Some(0)
    else
      var d := HexDigit(s[|s| - 1]);
      if d.None? || d.value >= radix then None
      else match DigitsValue(s[..|s| - 1], radix)
        case None => None
        case Some(v) => Some(v * radix + d.value)
  }

  /** `u8::from_str_radix(s, radix)`: an optional '+', then at least one digit,
      and a value that fits in a byte. */
  function ParseU8Radix(s: string, radix: nat): (r: Option<nat>)
    requires radix == 10 || radix == 16
    ensures r.Some? ==> r.value < 256
    ensures s == [] ==> r.None?
  {
    var digits := if s != [] && s[0] == '+' then s[1..] else s;
    if digits == [] then None
    else match DigitsValue(digits, radix)
      case None => None
      case Some(v) => if v < 256 then Some(v) else None
  }

  // ------------------------------------------------------------------- ordering

  /** Lexicographic order on code points: Rust's `Ord` for `String`. */
  predicate LexLe(a: string, b: string) {
    a == [] || (b != [] && (a[0] < b[0] || (a[0] == b[0] && LexLe(a[1..], b[1..]))))
  }

  lemma {:induction false} LexLeTotal(a: string, b: string)
    ensures LexLe(a, b) || LexLe(b, a)
  {
    if a != [] && b != [] && a[0] == b[0] {
      LexLeTotal(a[1..], b[1..]);
    }
  }

  lemma {:induction false} LexLeTransitive(a: string, b: string, c: string)
    requires LexLe(a, b) && LexLe(b, c)
    ensures LexLe(a, c)
  {
    if a != [] && b != [] && c != [] && a[0] == b[0] == c[0] {
      LexLeTransitive(a[1..], b[1..], c[1..]);
    }
  }

  lemma {:induction false} LexLeAntisymmetric(a: string, b: string)
    requires LexLe(a, b) && LexLe(b, a)
    ensures a == b
  {
    if a != [] && b != [] {
      LexLeAntisymmetric(a[1..], b[1..]);
    }
  }
}
