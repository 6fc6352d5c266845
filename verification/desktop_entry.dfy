/** The `.desktop` file reader (`DesktopEntry`): the key=value pairs of the
    `[Desktop Entry]` group, the fields the dock reads from them, the Exec
    field-code stripping and the visibility rule. Reading the file from disk
    is outside the model: the parser starts from the file's text. */
module DesktopEntry {
  import opened Wrappers
  import opened Text
  import Sorting

  datatype Entry = Entry(
    path: string,
    name: Option<string>,
    genericName: Option<string>,
    comment: Option<string>,
    icon: Option<string>,
    exec: Option<string>,
    terminal: bool,
    categories: seq<string>,
    noDisplay: bool,
    fields: map<string, string>)

  // ------------------------------------------------------------ lines

  /** What one line of the file is to the parser, after trimming. */
  datatype LineKind = Ignored | Header(isDesktopEntry: bool) | KeyValue(key: string, value: string)

  function Classify(raw: string): LineKind {
    var line := Trim(raw);
    if line == [] || line[0] == '#' then Ignored
    else if StartsWith(line, "[") && EndsWith(line, "]") then Header(line == "[Desktop Entry]")
    else match SplitOnce(line, '=')
      case None => Ignored
      case Some((before, after)) => KeyValue(Trim(before), Trim(after))
  }

  /** A key=value line is split at its first '=', and both sides are trimmed. */
  lemma ClassifyKeyValue(raw: string)
    requires Classify(raw).KeyValue?
    ensures exists before, after ::
      Trim(raw) == before + "=" + after && '=' !in before
      && Classify(raw).key == Trim(before) && Classify(raw).value == Trim(after)
  {
    var (before, after) := SplitOnce(Trim(raw), '=').value;
    assert Trim(raw) == before + "=" + after;
  }

  /** The classification of each line. */
  function Kinds(lines: seq<string>): (r: seq<LineKind>)
    ensures |r| == |lines| && forall i :: 0 <= i < |lines| ==> r[i] == Classify(lines[i])
  {
    seq(|lines|, i requires 0 <= i < |lines| => Classify(lines[i]))
  }

  /** Whether the most recent group header among `kinds` opened `[Desktop Entry]`. */
  predicate SectionOpen(kinds: seq<LineKind>) {
    if kinds == [] then false
    else match kinds[|kinds| - 1]
      case Header(b) => b
      case _ => SectionOpen(kinds[..|kinds| - 1])
  }

  /** Line `i` stores a value for `key`. */
  predicate RecordsAt(kinds: seq<LineKind>, i: int, key: string) {
    0 <= i < |kinds| && kinds[i].KeyValue? && kinds[i].key == key && SectionOpen(kinds[..i])
  }

  // ------------------------------------------------------------ the scan

  datatype ScanState = ScanState(fields: map<string, string>, inSection: bool)

  function Step(st: ScanState, kind: LineKind): ScanState {
    match kind
    case Ignored => st
    case Header(b) => st.(inSection := b)
    case KeyValue(k, v) => if st.inSection then st.(fields := st.fields[k := v]) else st
  }

  /** The state after reading the lines in order. */
  function Scan(kinds: seq<LineKind>): ScanState {
    if kinds == [] then ScanState(map[], false) else Step(Scan(kinds[..|kinds| - 1]), kinds[|kinds| - 1])
  }

  /** The scan's flag is the last header's verdict. */
  lemma {:induction false} ScanSection(kinds: seq<LineKind>)
    ensures Scan(kinds).inSection == SectionOpen(kinds)
  {
    if kinds != [] {
      ScanSection(kinds[..|kinds| - 1]);
    }
  }

  /** Adding a line does not change what the earlier lines record. */
  lemma RecordsAtPrefix(kinds: seq<LineKind>, i: int, key: string)
    requires kinds != [] && 0 <= i < |kinds| - 1
    ensures RecordsAt(kinds, i, key) == RecordsAt(kinds[..|kinds| - 1], i, key)
  {
    assert kinds[..|kinds| - 1][..i] == kinds[..i];
  }

  /** The last line stores `key` iff it records it; otherwise the key keeps
      its state. */
  lemma StepFields(kinds: seq<LineKind>, key: string)
    requires kinds != []
    ensures RecordsAt(kinds, |kinds| - 1, key) ==>
      key in Scan(kinds).fields && Scan(kinds).fields[key] == kinds[|kinds| - 1].value
    ensures !RecordsAt(kinds, |kinds| - 1, key) ==>
      var before := Scan(kinds[..|kinds| - 1]).fields;
      (key in Scan(kinds).fields <==> key in before)
      && (key in before ==> Scan(kinds).fields[key] == before[key])
  {
    ScanSection(kinds[..|kinds| - 1]);
  }

  /** The lines before the last record a key exactly as they do in the text
      without its last line. */
  lemma RecordsAtInit(kinds: seq<LineKind>, key: string)
    requires kinds != []
    ensures forall i :: 0 <= i < |kinds| - 1 ==>
      RecordsAt(kinds, i, key) == RecordsAt(kinds[..|kinds| - 1], i, key)
  {
    forall i | 0 <= i < |kinds| - 1 ensures RecordsAt(kinds, i, key) == RecordsAt(kinds[..|kinds| - 1], i, key) {
      RecordsAtPrefix(kinds, i, key);
    }
  }

  lemma {:induction false} ScanFieldsStored(kinds: seq<LineKind>, key: string)
    ensures key in Scan(kinds).fields <==> exists i :: RecordsAt(kinds, i, key)
  {
    if kinds != [] {
      var n := |kinds| - 1;
      var init := kinds[..n];
      ScanFieldsStored(init, key);
      StepFields(kinds, key);
      RecordsAtInit(kinds, key);
      if key in Scan(kinds).fields && !RecordsAt(kinds, n, key) {
        var i :| RecordsAt(init, i, key);
        assert RecordsAt(kinds, i, key);
      }
      if exists i :: RecordsAt(kinds, i, key) {
        var i :| RecordsAt(kinds, i, key);
        if i < n {
          assert RecordsAt(init, i, key);
        }
      }
    }
  }

  lemma {:induction false} ScanFieldsLast(kinds: seq<LineKind>, key: string)
    requires key in Scan(kinds).fields
    ensures exists i :: RecordsAt(kinds, i, key) && Scan(kinds).fields[key] == kinds[i].value
                        && forall j :: i < j < |kinds| ==> !RecordsAt(kinds, j, key)
  {
    var n := |kinds| - 1;
    if kinds == [] {
    } else if RecordsAt(kinds, n, key) {
      StepFields(kinds, key);
      assert RecordsAt(kinds, n, key) && Scan(kinds).fields[key] == kinds[n].value;
    } else {
      var init := kinds[..n];
      StepFields(kinds, key);
      ScanFieldsLast(init, key);
      RecordsAtInit(kinds, key);
      var i :| RecordsAt(init, i, key) && Scan(init).fields[key] == init[i].value
               && forall j :: i < j < |init| ==> !RecordsAt(init, j, key);
      assert RecordsAt(kinds, i, key) && init[i] == kinds[i];
      assert forall j :: i < j < |kinds| ==> !RecordsAt(kinds, j, key);
    }
  }

  /** A key is stored iff some line inside `[Desktop Entry]` gives it a value,
      and the stored value is that of the last such line. */
  lemma ScanFields(kinds: seq<LineKind>, key: string)
    ensures key in Scan(kinds).fields <==> exists i :: RecordsAt(kinds, i, key)
    ensures key in Scan(kinds).fields ==>
      exists i :: RecordsAt(kinds, i, key) && Scan(kinds).fields[key] == kinds[i].value
                  && forall j :: i < j < |kinds| ==> !RecordsAt(kinds, j, key)
  {
    ScanFieldsStored(kinds, key);
    if key in Scan(kinds).fields {
      ScanFieldsLast(kinds, key);
    }
  }

  lemma ScanNext(kinds: seq<LineKind>, i: nat)
    requires i < |kinds|
    ensures Scan(kinds[..i + 1]) == Step(Scan(kinds[..i]), kinds[i])
  {
    assert kinds[..i + 1][..i] == kinds[..i];
  }

  /** The loop of `parse_content`: the lines are trimmed; empty and comment
      lines are skipped; a header sets whether the group is open; inside the
      group, a line with '=' stores its trimmed key and value. */
  method ParseFields(content: string) returns (fields: map<string, string>)
    ensures fields == Scan(Kinds(Lines(content))).fields
  {
    var lines := Lines(content);
    ghost var kinds := Kinds(lines);
    fields := map[];
    var inSection := false;
    for i := 0 to |lines|
      invariant ScanState(fields, inSection) == Scan(kinds[..i])
    {
      ScanNext(kinds, i);
      assert kinds[i] == Classify(lines[i]);
      var line := Trim(lines[i]);
      if line == [] || line[0] == '#' {
        continue;
      }
      if StartsWith(line, "[") && EndsWith(line, "]") {
        inSection := line == "[Desktop Entry]";
        continue;
      }
      if !inSection {
        continue;
      }
      match SplitOnce(line, '=')
      case Some((key, value)) =>
        fields := fields[Trim(key) := Trim(value)];
      case None =>
    }
    assert kinds[..|lines|] == kinds;
  }

  // ------------------------------------------------------------ derived fields

  /** The pieces that are not empty, in order (`filter(|s| !s.is_empty())`). */
  function NonEmpty(pieces: seq<string>): (r: seq<string>)
    ensures forall c :: c in r <==> c in pieces && c != []
  {
    if pieces == [] then []
    else
      var last := pieces[|pieces| - 1];
      assert pieces == pieces[..|pieces| - 1] + [last];
      NonEmpty(pieces[..|pieces| - 1]) + (if last == [] then [] else [last])
  }

  /** The filter keeps every non-empty piece, as often as it occurs and in
      order, and drops every empty one. */
  lemma NonEmptySpec(pieces: seq<string>)
    ensures Sorting.IsSubsequence(NonEmpty(pieces), pieces)
    ensures multiset(NonEmpty(pieces)) == multiset(pieces)[[] := 0]
  {
    NonEmptyKeepsOrder(pieces);
    NonEmptyCounts(pieces);
  }

  lemma {:induction false} NonEmptyKeepsOrder(pieces: seq<string>)
    ensures Sorting.IsSubsequence(NonEmpty(pieces), pieces)
  {
    if pieces != [] {
      NonEmptyKeepsOrder(pieces[..|pieces| - 1]);
      NonEmptyOrderStep(pieces);
    }
  }

  lemma NonEmptyOrderStep(pieces: seq<string>)
    requires pieces != []
    requires Sorting.IsSubsequence(NonEmpty(pieces[..|pieces| - 1]), pieces[..|pieces| - 1])
    ensures Sorting.IsSubsequence(NonEmpty(pieces), pieces)
  {
    var init, last := pieces[..|pieces| - 1], pieces[|pieces| - 1];
    var r0 := NonEmpty(init);
    if last == [] {
      assert NonEmpty(pieces) == r0;
      if r0 != [] {
        assert r0[|r0| - 1] in r0;
      }
    } else {
      var r := r0 + [last];
      assert NonEmpty(pieces) == r;
      assert r[..|r| - 1] == r0;
    }
  }

  lemma {:induction false} NonEmptyCounts(pieces: seq<string>)
    ensures multiset(NonEmpty(pieces)) == multiset(pieces)[[] := 0]
  {
    if pieces != [] {
      var init, last := pieces[..|pieces| - 1], pieces[|pieces| - 1];
      NonEmptyCounts(init);
      DropEmptyStep(init, last);
      assert pieces == init + [last];
    }
  }

  lemma DropEmptyStep(init: seq<string>, last: string)
    ensures multiset(init + [last])[[] := 0]
            == multiset(init)[[] := 0] + (if last == [] then multiset{} else multiset{last})
  {
    assert multiset(init + [last]) == multiset(init) + multiset{last};
  }

  /** `Categories` split on ';' without the empty pieces, or [] when absent. */
  function Categories(fields: map<string, string>): (r: seq<string>)
    ensures "Categories" !in fields ==> r == []
    ensures forall c :: c in r ==> c != [] && ';' !in c
    ensures "Categories" in fields ==>
      forall c :: c in r <==> c in Split(fields["Categories"], ';') && c != []
    ensures "Categories" in fields ==>
      Sorting.IsSubsequence(r, Split(fields["Categories"], ';'))
      && multiset(r) == multiset(Split(fields["Categories"], ';'))[[] := 0]
  {
    if "Categories" in fields then
      NonEmptySpec(Split(fields["Categories"], ';'));
      NonEmpty(Split(fields["Categories"], ';'))
    else []
  }

  /** A flag is set only by the exact value "true". */
  predicate Flag(fields: map<string, string>, key: string) {
    key in fields && fields[key] == "true"
  }

  function Get(fields: map<string, string>, key: string): (r: Option<string>)
    ensures r.Some? <==> key in fields
  {
    if key in fields then Some(fields[key]) else None
  }

  /** The entry `parse_content` builds from the stored pairs. */
  function EntryOf(path: string, fields: map<string, string>): Entry {
    Entry(path, Get(fields, "Name"), Get(fields, "GenericName"), Get(fields, "Comment"),
          Get(fields, "Icon"), Get(fields, "Exec"), Flag(fields, "Terminal"),
          Categories(fields), Flag(fields, "NoDisplay"), fields)
  }

  /** `parse_content`; it has no failing path, so the entry is returned directly. */
  method ParseContent(path: string, content: string) returns (e: Entry)
    ensures e == EntryOf(path, Scan(Kinds(Lines(content))).fields)
  {
    var fields := ParseFields(content);
    e := EntryOf(path, fields);
  }

  // ------------------------------------------------------------ Exec

  /** The field codes `exec_command` removes, in the order it removes them,
      then "%%" to "%". */
  function StripFieldCodes(exec: string): string {
    var s1 := ReplaceAll(exec, "%u", "");
    var s2 := ReplaceAll(s1, "%U", "");
    var s3 := ReplaceAll(s2, "%f", "");
    var s4 := ReplaceAll(s3, "%F", "");
    var s5 := ReplaceAll(s4, "%i", "");
    var s6 := ReplaceAll(s5, "%c", "");
    var s7 := ReplaceAll(s6, "%k", "");
    ReplaceAll(s7, "%%", "%")
  }

  /** `exec_command`: the Exec value without field codes, with its words
      separated by single spaces. */
  function ExecCommand(e: Entry): (r: Option<string>)
    ensures r.None? <==> e.exec.None?
    ensures r.Some? ==> SingleSpaced(r.value)
                        && SplitWhitespace(r.value) == SplitWhitespace(StripFieldCodes(e.exec.value))
    ensures r.Some? ==> forall segs {:trigger Segmented(segs)} :: Segmented(segs) && e.exec.value == Concat(segs) ==>
              r.value == CollapseWhitespace(Concat(Unescape(Keep(segs, FieldCodes))))
  {
    match e.exec
    case None => None
    case Some(exec) =>
      CollapseWhitespaceWords(StripFieldCodes(exec));
      StripEverySegmentation(exec);
      Some(CollapseWhitespace(StripFieldCodes(exec)))
  }

  /** A pattern that starts with '%' occurs only in text that has a '%'. */
  lemma {:induction false} PercentPatternAbsent(s: string, pattern: string)
    requires pattern != [] && pattern[0] == '%' && '%' !in s
    ensures !Contains(s, pattern)
  {
    if s != [] {
      assert s[0] != '%';
      PercentPatternAbsent(s[1..], pattern);
    }
  }

  lemma PercentPatternKeeps(s: string, pattern: string, replacement: string)
    requires pattern != [] && pattern[0] == '%' && '%' !in s
    ensures ReplaceAll(s, pattern, replacement) == s
  {
    PercentPatternAbsent(s, pattern);
    ReplaceAbsent(s, pattern, replacement);
  }

  /** Without any '%', stripping changes nothing. */
  lemma NoPercentNoFieldCodes(exec: string)
    requires '%' !in exec
    ensures StripFieldCodes(exec) == exec
  {
    PercentPatternKeeps(exec, "%u", "");
    PercentPatternKeeps(exec, "%U", "");
    PercentPatternKeeps(exec, "%f", "");
    PercentPatternKeeps(exec, "%F", "");
    PercentPatternKeeps(exec, "%i", "");
    PercentPatternKeeps(exec, "%c", "");
    PercentPatternKeeps(exec, "%k", "");
    PercentPatternKeeps(exec, "%%", "%");
  }

  /** The seven field codes `exec_command` removes. */
  const FieldCodes: set<string> := {"%u", "%U", "%f", "%F", "%i", "%c", "%k"}

  predicate IsFieldCode(c: string) {
    c in FieldCodes
  }

  /** The letters that follow '%' in a field code. */
  predicate CodeLetter(c: char) {
    c == 'u' || c == 'U' || c == 'f' || c == 'F' || c == 'i' || c == 'c' || c == 'k'
  }

  /** What may follow an escaped "%%" so that no code pass reads its second
      '%' as the start of a field code: nothing, another "%%", or text
      without '%' that does not start with a code letter. */
  predicate EscapeEnds(next: seq<string>) {
    next == [] || next[0] == "%%" || (next[0] != [] && '%' !in next[0] && !CodeLetter(next[0][0]))
  }

  /** An Exec value cut into pieces, each a text without '%', a field code
      or the escape "%%". */
  predicate Segmented(segs: seq<string>) {
    forall i :: 0 <= i < |segs| ==>
      ('%' !in segs[i] || IsFieldCode(segs[i]) || segs[i] == "%%")
      && (segs[i] == "%%" ==> EscapeEnds(segs[i + 1..]))
  }

  function Concat(segs: seq<string>): string {
    if segs == [] then [] else segs[0] + Concat(segs[1..])
  }

  /** The pieces that are not in `dropped`, in order. */
  function Keep(segs: seq<string>, dropped: set<string>): seq<string> {
    if segs == [] then [] else (if segs[0] in dropped then [] else [segs[0]]) + Keep(segs[1..], dropped)
  }

  /** The pieces with every escape "%%" read as "%". */
  function Unescape(segs: seq<string>): seq<string> {
    if segs == [] then [] else [if segs[0] == "%%" then "%" else segs[0]] + Unescape(segs[1..])
  }

  lemma ConcatCons(head: string, rest: seq<string>)
    ensures Concat([head] + rest) == head + Concat(rest)
  {
    assert ([head] + rest)[1..] == rest;
  }

  lemma FieldCodeShape(c: string)
    requires IsFieldCode(c)
    ensures |c| == 2 && c[0] == '%' && CodeLetter(c[1]) && c[1] != '%'
  {
  }

  lemma SegmentedTail(segs: seq<string>)
    requires segs != [] && Segmented(segs)
    ensures Segmented(segs[1..])
  {
    var rest := segs[1..];
    forall i | 0 <= i < |rest|
      ensures ('%' !in rest[i] || IsFieldCode(rest[i]) || rest[i] == "%%")
              && (rest[i] == "%%" ==> EscapeEnds(rest[i + 1..]))
    {
      assert rest[i] == segs[i + 1] && rest[i + 1..] == segs[i + 2..];
    }
  }

  /** A character that cannot start the pattern is kept as it is. */
  lemma ReplaceAfterChar(c: char, t: string, pattern: string, replacement: string)
    requires pattern != [] && c != pattern[0]
    ensures ReplaceAll([c] + t, pattern, replacement) == [c] + ReplaceAll(t, pattern, replacement)
  {
    var s := [c] + t;
    assert s[0] == c && s[1..] == t;
    if |s| < |pattern| {
      assert ReplaceAll(t, pattern, replacement) == t;
    } else {
      assert !(pattern <= s);
    }
  }

  /** A pattern starting with '%' cannot match inside text without '%'. */
  lemma {:induction false} ReplaceAfterPlain(x: string, y: string, pattern: string, replacement: string)
    requires pattern != [] && pattern[0] == '%' && '%' !in x
    ensures ReplaceAll(x + y, pattern, replacement) == x + ReplaceAll(y, pattern, replacement)
  {
    if x == [] {
      assert x + y == y;
    } else {
      var c, x' := x[0], x[1..];
      assert x == [c] + x';
      assert x + y == [c] + (x' + y);
      ReplaceAfterChar(c, x' + y, pattern, replacement);
      ReplaceAfterPlain(x', y, pattern, replacement);
    }
  }

  /** The pattern at the front of the text is replaced. */
  lemma ReplaceHead(pattern: string, replacement: string, z: string)
    requires pattern != []
    ensures ReplaceAll(pattern + z, pattern, replacement) == replacement + ReplaceAll(z, pattern, replacement)
  {
    assert pattern <= pattern + z;
    assert (pattern + z)[|pattern|..] == z;
  }

  /** A different field code at the front of the text is kept. */
  lemma ReplaceHeadOtherCode(head: string, code: string, z: string)
    requires IsFieldCode(head) && IsFieldCode(code) && head != code
    ensures ReplaceAll(head + z, code, "") == head + ReplaceAll(z, code, "")
  {
    FieldCodeShape(head);
    FieldCodeShape(code);
    var s := head + z;
    assert head == [head[0], head[1]] && code == [code[0], code[1]];
    assert !(code <= s) by { assert s[1] == head[1] != code[1]; }
    assert s[1..] == [head[1]] + z;
    ReplaceAfterPlain([head[1]], z, code, "");
  }

  /** An escape "%%" at the front is kept by a code pass when the text after
      it does not continue the code. */
  lemma ReplaceHeadEscape(code: string, z: string)
    requires IsFieldCode(code) && (z == [] || z[0] != code[1])
    ensures ReplaceAll("%%" + z, code, "") == "%%" + ReplaceAll(z, code, "")
  {
    FieldCodeShape(code);
    var s := "%%" + z;
    assert code == [code[0], code[1]];
    assert !(code <= s) by { assert s[1] == '%' != code[1]; }
    assert s[1..] == "%" + z;
    if z == [] {
      assert ReplaceAll("%", code, "") == "%";
    } else {
      assert !(code <= "%" + z) by { assert ("%" + z)[1] == z[0]; }
      assert ("%" + z)[1..] == z;
    }
  }

  /** The text after a piece that is kept starts with that piece. */
  lemma KeepHeadChar(rest: seq<string>, dropped: set<string>)
    requires rest != [] && rest[0] != [] && rest[0] !in dropped
    ensures Concat(Keep(rest, dropped)) != [] && Concat(Keep(rest, dropped))[0] == rest[0][0]
  {
    assert rest == [rest[0]] + rest[1..];
    KeepCons(rest[0], rest[1..], dropped);
    ConcatCons(rest[0], Keep(rest[1..], dropped));
  }

  /** The text after an escape never continues a field code. */
  lemma EscapeEndsNoCode(rest: seq<string>, dropped: set<string>, code: string)
    requires EscapeEnds(rest) && dropped <= FieldCodes && IsFieldCode(code)
    ensures Concat(Keep(rest, dropped)) == [] || Concat(Keep(rest, dropped))[0] != code[1]
  {
    FieldCodeShape(code);
    if rest != [] {
      assert rest[0] !in FieldCodes;
      KeepHeadChar(rest, dropped);
    }
  }

  /** Removing one more field code removes exactly its pieces. */
  lemma {:induction false} ReplaceCode(segs: seq<string>, dropped: set<string>, code: string)
    requires Segmented(segs) && IsFieldCode(code) && dropped <= FieldCodes
    ensures ReplaceAll(Concat(Keep(segs, dropped)), code, "") == Concat(Keep(segs, dropped + {code}))
  {
    if segs != [] {
      var head, rest := segs[0], segs[1..];
      SegmentedTail(segs);
      ReplaceCode(rest, dropped, code);
      var k, k' := Keep(rest, dropped), Keep(rest, dropped + {code});
      if head in dropped {
        assert Keep(segs, dropped) == k && Keep(segs, dropped + {code}) == k';
      } else {
        assert Keep(segs, dropped) == [head] + k;
        ConcatCons(head, k);
        FieldCodeShape(code);
        if head == code {
          ReplaceHead(code, "", Concat(k));
          assert Keep(segs, dropped + {code}) == k';
        } else if IsFieldCode(head) {
          ReplaceHeadOtherCode(head, code, Concat(k));
          ConcatCons(head, k');
        } else if head == "%%" {
          assert EscapeEnds(segs[1..]);
          EscapeEndsNoCode(rest, dropped, code);
          ReplaceHeadEscape(code, Concat(k));
          ConcatCons(head, k');
        } else {
          ReplaceAfterPlain(head, Concat(k), code, "");
          ConcatCons(head, k');
        }
      }
    }
  }

  lemma {:induction false} KeepAll(segs: seq<string>)
    ensures Keep(segs, {}) == segs
  {
    if segs != [] {
      KeepAll(segs[1..]);
      assert segs == [segs[0]] + segs[1..];
    }
  }

  /** Pieces that are text without '%' or the escape "%%". */
  predicate EscapedText(segs: seq<string>) {
    forall i :: 0 <= i < |segs| ==> '%' !in segs[i] || segs[i] == "%%"
  }

  /** Once every field code is dropped, only text and escapes are left. */
  lemma {:induction false} KeptEscapedText(segs: seq<string>)
    requires Segmented(segs)
    ensures EscapedText(Keep(segs, FieldCodes))
  {
    if segs != [] {
      var rest := segs[1..];
      SegmentedTail(segs);
      KeptEscapedText(rest);
      var kr := Keep(rest, FieldCodes);
      if segs[0] in FieldCodes {
        assert Keep(segs, FieldCodes) == kr;
      } else {
        assert Keep(segs, FieldCodes) == [segs[0]] + kr;
        forall i | 0 <= i < |[segs[0]] + kr| ensures '%' !in ([segs[0]] + kr)[i] || ([segs[0]] + kr)[i] == "%%" {
          if i > 0 { assert ([segs[0]] + kr)[i] == kr[i - 1]; }
        }
      }
    }
  }

  /** The final pass turns each escape into a single '%'. */
  lemma {:induction false} ReplaceEscapes(segs: seq<string>)
    requires EscapedText(segs)
    ensures ReplaceAll(Concat(segs), "%%", "%") == Concat(Unescape(segs))
  {
    if segs != [] {
      var head, rest := segs[0], segs[1..];
      assert EscapedText(rest) by {
        forall i | 0 <= i < |rest| ensures '%' !in rest[i] || rest[i] == "%%" { assert rest[i] == segs[i + 1]; }
      }
      ReplaceEscapes(rest);
      assert segs == [head] + rest;
      ConcatCons(head, rest);
      var u := [if head == "%%" then "%" else head];
      assert Unescape(segs) == u + Unescape(rest);
      ConcatCons(u[0], Unescape(rest));
      if head == "%%" {
        ReplaceHead("%%", "%", Concat(rest));
      } else {
        ReplaceAfterPlain(head, Concat(rest), "%%", "%");
      }
    }
  }

  /** In an Exec value made of '%'-free text, field codes and escapes "%%"
      (none of them right before a code letter), stripping removes exactly
      the field codes, reads each "%%" as "%" and keeps the rest in order. */
  lemma StripSegments(segs: seq<string>)
    requires Segmented(segs)
    ensures StripFieldCodes(Concat(segs)) == Concat(Unescape(Keep(segs, FieldCodes)))
  {
    var d0: set<string> := {};
    var d1 := d0 + {"%u"};
    var d2 := d1 + {"%U"};
    var d3 := d2 + {"%f"};
    var d4 := d3 + {"%F"};
    var d5 := d4 + {"%i"};
    var d6 := d5 + {"%c"};
    var d7 := d6 + {"%k"};
    assert d6 <= FieldCodes;
    KeepAll(segs);
    ReplaceCode(segs, d0, "%u");
    ReplaceCode(segs, d1, "%U");
    ReplaceCode(segs, d2, "%f");
    ReplaceCode(segs, d3, "%F");
    ReplaceCode(segs, d4, "%i");
    ReplaceCode(segs, d5, "%c");
    ReplaceCode(segs, d6, "%k");
    assert d7 == FieldCodes;
    KeptEscapedText(segs);
    ReplaceEscapes(Keep(segs, FieldCodes));
  }

  /** `StripSegments` for every way of cutting the Exec value into pieces. */
  lemma StripEverySegmentation(exec: string)
    ensures forall segs {:trigger Segmented(segs)} :: Segmented(segs) && exec == Concat(segs) ==>
              StripFieldCodes(exec) == Concat(Unescape(Keep(segs, FieldCodes)))
  {
    forall segs | Segmented(segs) && exec == Concat(segs) {
      StripSegments(segs);
    }
  }

  /** Without escapes, reading them changes nothing. */
  lemma {:induction false} UnescapeNoEscapes(segs: seq<string>)
    requires forall i :: 0 <= i < |segs| ==> segs[i] != "%%"
    ensures Unescape(segs) == segs
  {
    if segs != [] {
      var rest := segs[1..];
      assert forall i :: 0 <= i < |rest| ==> rest[i] != "%%" by {
        forall i | 0 <= i < |rest| ensures rest[i] != "%%" { assert rest[i] == segs[i + 1]; }
      }
      UnescapeNoEscapes(rest);
      assert segs == [segs[0]] + rest;
    }
  }

  /** Keeping pieces keeps only pieces of the input. */
  lemma {:induction false} KeepSubset(segs: seq<string>, dropped: set<string>)
    ensures forall i :: 0 <= i < |Keep(segs, dropped)| ==> Keep(segs, dropped)[i] in segs
  {
    if segs != [] {
      KeepSubset(segs[1..], dropped);
      var kr := Keep(segs[1..], dropped);
      assert Keep(segs, dropped) == (if segs[0] in dropped then [] else [segs[0]]) + kr;
      forall i | 0 <= i < |Keep(segs, dropped)| ensures Keep(segs, dropped)[i] in segs {
        var k := Keep(segs, dropped);
        if segs[0] in dropped || i > 0 {
          var j := if segs[0] in dropped then i else i - 1;
          assert k[i] == kr[j] && kr[j] in segs[1..];
        }
      }
    }
  }

  /** An Exec value's words with the single spaces between them as pieces. */
  function Spaced(ws: seq<string>): seq<string> {
    if |ws| <= 1 then ws else [ws[0], " "] + Spaced(ws[1..])
  }

  /** A word that is '%'-free text or a field code. */
  predicate ExecWord(w: string) {
    IsWord(w) && ('%' !in w || IsFieldCode(w))
  }

  lemma {:induction false} SpacedJoin(ws: seq<string>)
    ensures Concat(Spaced(ws)) == Join(ws, " ")
  {
    if |ws| == 1 {
      assert Concat(ws) == ws[0] + Concat([]);
    } else if |ws| > 1 {
      var w, tail := ws[0], ws[1..];
      SpacedJoin(tail);
      assert ws == [w] + tail;
      SpacedCons(w, tail);
      ConcatCons(w, [" "] + Spaced(tail));
      ConcatCons(" ", Spaced(tail));
      JoinSpaceCons(w, tail);
    }
  }

  lemma {:induction false} SpacedSegmented(ws: seq<string>)
    requires forall i :: 0 <= i < |ws| ==> ExecWord(ws[i])
    ensures Segmented(Spaced(ws))
    ensures forall i :: 0 <= i < |Spaced(ws)| ==> Spaced(ws)[i] != "%%"
  {
    if |ws| > 1 {
      var w, tail := ws[0], ws[1..];
      assert forall i :: 0 <= i < |tail| ==> ExecWord(tail[i]) by {
        forall i | 0 <= i < |tail| ensures ExecWord(tail[i]) { assert tail[i] == ws[i + 1]; }
      }
      SpacedSegmented(tail);
      assert ws == [w] + tail;
      SpacedCons(w, tail);
      var sp := Spaced(ws);
      forall i | 0 <= i < |sp|
        ensures ('%' !in sp[i] || IsFieldCode(sp[i]) || sp[i] == "%%") && sp[i] != "%%"
      {
        if i >= 2 { assert sp[i] == Spaced(tail)[i - 2]; }
      }
    }
  }

  lemma KeepCons(head: string, rest: seq<string>, dropped: set<string>)
    ensures Keep([head] + rest, dropped) == (if head in dropped then [] else [head]) + Keep(rest, dropped)
  {
    assert ([head] + rest)[1..] == rest;
  }

  lemma SpacedCons(w: string, tail: seq<string>)
    requires tail != []
    ensures Spaced([w] + tail) == [w] + ([" "] + Spaced(tail))
  {
    assert ([w] + tail)[1..] == tail;
  }

  lemma SpacedKeepConcat(w: string, tail: seq<string>, dropped: set<string>)
    requires tail != [] && " " !in dropped
    ensures Concat(Keep(Spaced([w] + tail), dropped))
            == (if w in dropped then [] else w) + (" " + Concat(Keep(Spaced(tail), dropped)))
  {
    var st := Spaced(tail);
    var kt := Keep(st, dropped);
    SpacedCons(w, tail);
    KeepCons(" ", st, dropped);
    KeepCons(w, [" "] + st, dropped);
    ConcatCons(" ", kt);
    var k := Keep([w] + ([" "] + st), dropped);
    if w in dropped {
      assert k == [" "] + kt by { assert [] + ([" "] + kt) == [" "] + kt; }
    } else {
      assert k == [w] + ([" "] + kt);
      ConcatCons(w, [" "] + kt);
    }
  }

  lemma SplitKeptWord(k: string, w: string, c: string)
    requires IsWord(w) && k == w + (" " + c)
    ensures SplitWhitespace(k) == [w] + SplitWhitespace(c)
  {
    SplitWhitespaceWordSpace(w, c);
  }

  lemma SplitDroppedWord(k: string, c: string)
    requires k == [] + (" " + c)
    ensures SplitWhitespace(k) == SplitWhitespace(c)
  {
    assert k == " " + c;
    SplitWhitespaceSpace(c);
  }

  /** A kept word and the space after it. */
  lemma SpacedKeepWord(w: string, tail: seq<string>, dropped: set<string>)
    requires tail != [] && IsWord(w) && " " !in dropped && w !in dropped
    ensures SplitWhitespace(Concat(Keep(Spaced([w] + tail), dropped)))
            == [w] + SplitWhitespace(Concat(Keep(Spaced(tail), dropped)))
  {
    SpacedKeepConcat(w, tail, dropped);
    SplitKeptWord(Concat(Keep(Spaced([w] + tail), dropped)), w, Concat(Keep(Spaced(tail), dropped)));
  }

  /** A dropped word leaves only the space after it. */
  lemma SpacedDropWord(w: string, tail: seq<string>, dropped: set<string>)
    requires tail != [] && " " !in dropped && w in dropped
    ensures SplitWhitespace(Concat(Keep(Spaced([w] + tail), dropped)))
            == SplitWhitespace(Concat(Keep(Spaced(tail), dropped)))
  {
    SpacedKeepConcat(w, tail, dropped);
    SplitDroppedWord(Concat(Keep(Spaced([w] + tail), dropped)), Concat(Keep(Spaced(tail), dropped)));
  }

  /** Once the field codes are dropped, the words left are the other words. */
  lemma {:induction false} SpacedKeepWords(ws: seq<string>, dropped: set<string>)
    requires forall i :: 0 <= i < |ws| ==> IsWord(ws[i])
    requires " " !in dropped
    ensures SplitWhitespace(Concat(Keep(Spaced(ws), dropped))) == Keep(ws, dropped)
  {
    if |ws| == 1 {
      var w := ws[0];
      assert ws == [w] + [];
      KeepCons(w, [], dropped);
      if w !in dropped {
        ConcatCons(w, []);
        SplitWhitespaceWord(w, []);
        assert w + [] == w;
      }
    } else if |ws| > 1 {
      var w, tail := ws[0], ws[1..];
      assert forall i :: 0 <= i < |tail| ==> IsWord(tail[i]) by {
        forall i | 0 <= i < |tail| ensures IsWord(tail[i]) { assert tail[i] == ws[i + 1]; }
      }
      SpacedKeepWords(tail, dropped);
      assert ws == [w] + tail;
      KeepCons(w, tail, dropped);
      if w in dropped {
        SpacedDropWord(w, tail, dropped);
      } else {
        SpacedKeepWord(w, tail, dropped);
      }
    }
  }

  lemma SpaceIsNoFieldCode()
    ensures " " !in FieldCodes
  {
  }

  /** `exec_command` on an Exec value whose words are '%'-free text or field
      codes: the command is the other words, in order, one space apart. */
  lemma ExecDropsFieldCodes(e: Entry, ws: seq<string>)
    requires forall i :: 0 <= i < |ws| ==> ExecWord(ws[i])
    requires e.exec == Some(Join(ws, " "))
    ensures ExecCommand(e) == Some(Join(Keep(ws, FieldCodes), " "))
  {
    SpacedJoin(ws);
    SpacedSegmented(ws);
    StripSegments(Spaced(ws));
    KeepSubset(Spaced(ws), FieldCodes);
    UnescapeNoEscapes(Keep(Spaced(ws), FieldCodes));
    SpaceIsNoFieldCode();
    SpacedKeepWords(ws, FieldCodes);
  }

  lemma ConcatPair(x: string, y: string)
    ensures Concat([x, y]) == x + y
  {
    assert [x, y] == [x] + [y] && [y] == [y] + [];
    ConcatCons(x, [y]);
    ConcatCons(y, []);
    assert y + [] == y;
  }

  lemma TrailingEscapeSegmented(x: string)
    requires '%' !in x
    ensures Segmented([x, "%%"])
  {
    var segs := [x, "%%"];
    assert segs[2..] == [] && EscapeEnds(segs[2..]);
  }

  lemma TrailingEscapeRead(x: string)
    requires '%' !in x
    ensures Unescape(Keep([x, "%%"], FieldCodes)) == [x, "%"]
  {
    var segs := [x, "%%"];
    KeepCons("%%", [], FieldCodes);
    KeepCons(x, ["%%"], FieldCodes);
    assert segs == [x] + ["%%"];
    assert Keep(segs, FieldCodes) == segs;
    assert segs[1..] == ["%%"] && segs[1..][1..] == [];
  }

  /** Stripping an Exec value that ends in an escape "%%". */
  lemma StripTrailingEscape(x: string)
    requires '%' !in x
    ensures StripFieldCodes(x + "%%") == x + "%"
  {
    TrailingEscapeSegmented(x);
    ConcatPair(x, "%%");
    StripSegments([x, "%%"]);
    TrailingEscapeRead(x);
    ConcatPair(x, "%");
  }

  lemma WordPercent(t: string)
    requires IsWord(t)
    ensures IsWord(t + "%")
  {
    assert !IsWhitespace('%');
    forall i | 0 <= i < |t + "%"| ensures !IsWhitespace((t + "%")[i]) {
      if i < |t| { assert (t + "%")[i] == t[i]; }
    }
  }

  /** Two words one space apart are already collapsed. */
  lemma TwoWordsCollapsed(w: string, v: string)
    requires IsWord(w) && IsWord(v)
    ensures CollapseWhitespace(w + (" " + v)) == w + (" " + v)
  {
    var ws := [w, v];
    assert ws == [w] + [v];
    JoinSpaceCons(w, [v]);
    assert AllWords(ws);
    SplitJoinWords(ws);
  }

  /** A word and an argument ending in an escaped percent: the escape becomes
      a single '%' in the command. */
  lemma ExecEscapedPercent(e: Entry, w: string, t: string)
    requires IsWord(w) && IsWord(t) && '%' !in w && '%' !in t
    requires e.exec == Some(w + (" " + t) + "%%")
    ensures ExecCommand(e) == Some(w + (" " + (t + "%")))
  {
    StripTrailingEscape(w + (" " + t));
    assert w + (" " + t) + "%" == w + (" " + (t + "%"));
    WordPercent(t);
    TwoWordsCollapsed(w, t + "%");
  }

  /** `Exec=<word> 100%%` runs as `<word> 100%`. */
  lemma HundredPercentExec(e: Entry, w: string)
    requires IsWord(w) && '%' !in w
    requires e.exec == Some(w + " 100%%")
    ensures ExecCommand(e) == Some(w + " 100%")
  {
    HundredPercentText(w);
    ExecEscapedPercent(e, w, "100");
  }

  lemma HundredPercentText(w: string)
    ensures w + " 100%%" == w + (" " + "100") + "%%"
    ensures w + (" " + ("100" + "%")) == w + " 100%"
    ensures IsWord("100") && '%' !in "100"
  {
  }

  /** An escape right before a code letter: the "%u" pass reads the second
      '%' as the start of a code, so "%%u" strips to "%". */
  lemma EscapeBeforeCodeLetter()
    ensures StripFieldCodes("%%u") == "%"
  {
    assert ReplaceAll("%%u", "%u", "") == "%" by {
      assert "%%u"[1..] == "%u";
      ReplaceHead("%u", "", "");
      assert ReplaceAll("", "%u", "") == "";
    }
    PercentPatternKeeps("", "%%", "%");
  }

  /** A command word followed by a field code runs as the word alone. */
  lemma ExecWordAndCode(e: Entry, w: string, code: string)
    requires ExecWord(w) && !IsFieldCode(w) && IsWord(code) && IsFieldCode(code)
    requires e.exec == Some(w + " " + code)
    ensures ExecCommand(e) == Some(w)
  {
    var ws := [w, code];
    assert ws[1..] == [code];
    assert Join(ws, " ") == w + " " + code;
    ExecDropsFieldCodes(e, ws);
    KeepCons(code, [], FieldCodes);
    KeepCons(w, [code], FieldCodes);
  }

  /** The Firefox entry's `Exec=firefox %u` runs as `firefox`. */
  lemma FirefoxExecCommand(e: Entry)
    requires e.exec == Some("firefox %u")
    ensures ExecCommand(e) == Some("firefox")
  {
    assert ExecWord("firefox") && IsWord("%u");
    assert "firefox" + " " + "%u" == "firefox %u";
    ExecWordAndCode(e, "firefox", "%u");
  }

  lemma JoinThree(a: string, b: string, c: string)
    ensures Join([a, b, c], " ") == a + (" " + (b + (" " + c)))
  {
    assert [a, b, c] == [a] + [b, c] && [b, c] == [b] + [c];
    JoinSpaceCons(a, [b, c]);
    JoinSpaceCons(b, [c]);
  }

  lemma JoinFive(a: string, b: string, c: string, d: string, f: string)
    ensures Join([a, b, c, d, f], " ") == a + (" " + (b + (" " + (c + (" " + (d + (" " + f)))))))
  {
    assert [a, b, c, d, f] == [a] + [b, c, d, f] && [b, c, d, f] == [b] + [c, d, f];
    JoinSpaceCons(a, [b, c, d, f]);
    JoinSpaceCons(b, [c, d, f]);
    JoinThree(c, d, f);
  }

  lemma KeepTwoCodes(a: string, b: string, c1: string, d: string, c2: string)
    requires !IsFieldCode(a) && !IsFieldCode(b) && !IsFieldCode(d) && IsFieldCode(c1) && IsFieldCode(c2)
    ensures Keep([a, b, c1, d, c2], FieldCodes) == [a, b, d]
  {
    assert [a, b, c1, d, c2] == [a] + ([b] + ([c1] + ([d] + ([c2] + []))));
    KeepCons(c2, [], FieldCodes);
    KeepCons(d, [c2] + [], FieldCodes);
    KeepCons(c1, [d] + ([c2] + []), FieldCodes);
    KeepCons(b, [c1] + ([d] + ([c2] + [])), FieldCodes);
    KeepCons(a, [b] + ([c1] + ([d] + ([c2] + []))), FieldCodes);
  }

  /** Words `a b %x d %y`, with two field codes, run as `a b d`. */
  lemma ExecWordsAndTwoCodes(e: Entry, a: string, b: string, c1: string, d: string, c2: string)
    requires ExecWord(a) && ExecWord(b) && ExecWord(d) && !IsFieldCode(a) && !IsFieldCode(b) && !IsFieldCode(d)
    requires IsWord(c1) && IsFieldCode(c1) && IsWord(c2) && IsFieldCode(c2)
    requires e.exec == Some(a + (" " + (b + (" " + (c1 + (" " + (d + (" " + c2))))))))
    ensures ExecCommand(e) == Some(a + (" " + (b + (" " + d))))
  {
    var ws := [a, b, c1, d, c2];
    JoinFive(a, b, c1, d, c2);
    ExecDropsFieldCodes(e, ws);
    KeepTwoCodes(a, b, c1, d, c2);
    JoinThree(a, b, d);
  }

  lemma MyappWords()
    ensures ExecWord("myapp") && ExecWord("--url") && ExecWord("--files") && IsWord("%u") && IsWord("%F")
  {
  }

  lemma MyappCodes()
    ensures !IsFieldCode("myapp") && !IsFieldCode("--url") && !IsFieldCode("--files")
    ensures IsFieldCode("%u") && IsFieldCode("%F")
  {
  }

  lemma MyappText()
    ensures "myapp" + (" " + ("--url" + (" " + ("%u" + (" " + ("--files" + (" " + "%F")))))))
            == "myapp --url %u --files %F"
    ensures "myapp" + (" " + ("--url" + (" " + "--files"))) == "myapp --url --files"
  {
  }

  /** `Exec=myapp --url %u --files %F` runs as `myapp --url --files`. */
  lemma MyappExecCommand(e: Entry)
    requires e.exec == Some("myapp --url %u --files %F")
    ensures ExecCommand(e) == Some("myapp --url --files")
  {
    MyappWords();
    MyappCodes();
    MyappText();
    ExecWordsAndTwoCodes(e, "myapp", "--url", "%u", "--files", "%F");
  }

  // ------------------------------------------------------------ visibility

  /** `is_visible_app`. */
  predicate IsVisibleApp(e: Entry) {
    !e.noDisplay && e.name.Some? && e.exec.Some? && "Type" in e.fields && e.fields["Type"] == "Application"
  }

  /** An entry read from a file is shown iff NoDisplay is not "true", Name and
      Exec are present, and Type is exactly "Application". */
  lemma VisibleApp(path: string, fields: map<string, string>)
    ensures IsVisibleApp(EntryOf(path, fields)) <==>
      !Flag(fields, "NoDisplay") && "Name" in fields && "Exec" in fields
      && "Type" in fields && fields["Type"] == "Application"
  {
  }
}
