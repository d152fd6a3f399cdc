/**
  The INI printer and parser of ExternalLibraries/IniParser/inicpp.h in its default configuration: `=` between
  name and value, `#` and `;` start comments, `\` escapes them, values on one line, later fields overwrite.
 */
module Ini {
  import opened Collections

  // ---------------------------------------------------------------- strings

  predicate IsSpace(c: char)
  {
    c == ' ' || c == '\t' || c == '\n' || c == '\r' || c == '\U{0C}' || c == '\U{0B}'
  }

  function TrimRight(s: string): (t: string)
    ensures t <= s && (t != "" ==> !IsSpace(t[|t| - 1]))
  {
    if s != "" && IsSpace(s[|s| - 1]) then TrimRight(s[..|s| - 1]) else s
  }

  function TrimLeft(s: string): (t: string)
    ensures |t| <= |s| && t == s[|s| - |t|..] && (t != "" ==> !IsSpace(t[0]))
  {
    if s != "" && IsSpace(s[0]) then TrimLeft(s[1..]) else s
  }

  function Trim(s: string): (t: string)
  {
    TrimLeft(TrimRight(s))
  }

  /** Neither end is white space. */
  predicate Trimmed(s: string)
  {
    s != "" ==> !IsSpace(s[0]) && !IsSpace(s[|s| - 1])
  }

  lemma TrimIs(s: string)
    ensures Trimmed(Trim(s))
    ensures Trimmed(s) ==> Trim(s) == s
    ensures forall c :: c in Trim(s) ==> c in s
    ensures s != "" && !IsSpace(s[0]) ==> Trim(s) != "" && Trim(s)[0] == s[0]
  {
    var r := TrimRight(s);
    var t := TrimLeft(r);
    if t != "" {
      assert t[|t| - 1] == r[|r| - 1];
    }
    if s != "" && !IsSpace(s[0]) {
      TrimRightKeepsFirst(s);
    }
  }

  lemma {:induction false} TrimRightKeepsFirst(s: string)
    requires s != "" && !IsSpace(s[0])
    ensures TrimRight(s) != "" && TrimRight(s)[0] == s[0]
  {
    if |s| <= 1 || !IsSpace(s[|s| - 1]) {
    } else {
      TrimRightKeepsFirst(s[..|s| - 1]);
    }
  }

  /** White space only. */
  predicate Blank(s: string)
  {
    forall i :: 0 <= i < |s| ==>
      s[i] == ' ' || s[i] == '\t' || s[i] == '\n' || s[i] == '\r' || s[i] == '\U{0C}' || s[i] == '\U{0B}'
  }

  lemma BlankParts(a: string, b: string)
    ensures Blank(a + b) <==> Blank(a) && Blank(b)
  {
    var s := a + b;
    assert forall i :: 0 <= i < |a| ==> s[i] == a[i];
    assert forall i :: 0 <= i < |b| ==> s[|a| + i] == b[i];
  }

  lemma BlankOne(c: char)
    ensures Blank([c]) <==> IsSpace(c)
    ensures Blank("")
  {
    assert [c][0] == c;
  }

  lemma {:induction false} RightBlank(s: string, b: string)
    requires Blank(b) && (s != "" ==> !IsSpace(s[|s| - 1]))
    ensures TrimRight(s + b) == s
    decreases |b|
  {
    hide Blank, IsSpace;
    if b == "" {
      assert s + b == s;
    } else {
      var init, c := b[..|b| - 1], b[|b| - 1];
      assert b == init + [c];
      BlankParts(init, [c]);
      BlankOne(c);
      assert (s + b)[..|s + b| - 1] == s + init && (s + b)[|s + b| - 1] == c;
      RightBlank(s, init);
    }
  }

  lemma {:induction false} LeftBlank(a: string, s: string)
    requires Blank(a) && (s != "" ==> !IsSpace(s[0]))
    ensures TrimLeft(a + s) == s
    decreases |a|
  {
    hide Blank, IsSpace;
    if a == "" {
      assert a + s == s;
    } else {
      assert a == [a[0]] + a[1..];
      BlankParts([a[0]], a[1..]);
      BlankOne(a[0]);
      assert (a + s)[1..] == a[1..] + s && (a + s)[0] == a[0];
      LeftBlank(a[1..], s);
    }
  }

  /** White space around a trimmed text is trimmed away, and nothing else. */
  lemma TrimPadded(a: string, s: string, b: string)
    requires Blank(a) && Blank(b) && Trimmed(s)
    ensures Trim(a + s + b) == s
  {
    hide Blank, IsSpace;
    BlankParts(a, b);
    if s == "" {
      assert a + s + b == "" + (a + b);
      RightBlank("", a + b);
    } else {
      assert (a + s)[|a + s| - 1] == s[|s| - 1];
      RightBlank(a + s, b);
      LeftBlank(a, s);
    }
  }

  lemma {:induction false} RightCut(s: string) returns (b: string)
    ensures Blank(b) && s == TrimRight(s) + b
  {
    hide Blank, IsSpace;
    if s != "" && IsSpace(s[|s| - 1]) {
      var init, c := s[..|s| - 1], s[|s| - 1];
      var before := RightCut(init);
      b := before + [c];
      BlankParts(before, [c]);
      BlankOne(c);
      Associate(TrimRight(init), before, [c]);
      assert s == init + [c];
    } else {
      b := "";
      BlankOne(' ');
    }
  }

  lemma {:induction false} LeftCut(s: string) returns (a: string)
    ensures Blank(a) && s == a + TrimLeft(s)
  {
    hide Blank, IsSpace;
    if s != "" && IsSpace(s[0]) {
      var behind := LeftCut(s[1..]);
      a := [s[0]] + behind;
      BlankParts([s[0]], behind);
      BlankOne(s[0]);
      Associate([s[0]], behind, TrimLeft(s[1..]));
      assert s == [s[0]] + s[1..];
    } else {
      a := "";
      BlankOne(' ');
    }
  }

  /** What trimming takes off both ends of any text is white space. */
  lemma TrimCuts(s: string) returns (a: string, b: string)
    ensures Blank(a) && Blank(b) && s == a + Trim(s) + b
  {
    b := RightCut(s);
    a := LeftCut(TrimRight(s));
  }

  /** The first position of `c` at or after `start`, or the length when there is none. */
  function Find(s: string, c: char, start: nat): (pos: nat)
    ensures pos <= |s| || pos == start
    ensures pos < |s| ==> start <= pos && s[pos] == c
    ensures forall i :: start <= i < pos && i < |s| ==> s[i] != c
    ensures pos >= |s| <==> forall i :: start <= i < |s| ==> s[i] != c
    decreases |s| - start
  {
    if start >= |s| then start
    else if s[start] == c then start
    else Find(s, c, start + 1)
  }

  // ---------------------------------------------------------------- comments

  const ESC := '\\'

  /** Cuts the string at the first `prefix` from `start` on that is not escaped; drops the escapes of the others. */
  function EraseComment(prefix: char, s: string, start: nat): (t: string)
    decreases |s|
  {
    var pos := Find(s, prefix, start);
    if pos >= |s| then s
    else if pos != 0 && s[pos - 1] == ESC then EraseComment(prefix, s[..pos - 1] + s[pos..], pos)
    else s[..pos]
  }

  function EraseComments(s: string): (t: string)
  {
    EraseComment(';', EraseComment('#', s, 0), 0)
  }

  /** `s` with an escape in front of every character of `prefixes`. */
  function EscapeBy(prefixes: set<char>, s: string): (t: string)
  {
    if s == "" then ""
    else (if s[0] in prefixes then [ESC, s[0]] else [s[0]]) + EscapeBy(prefixes, s[1..])
  }

  function Escape(s: string): (t: string)
  {
    EscapeBy({'#', ';'}, s)
  }

  lemma SkipOthers(prefix: char, s: string, start: nat, n: nat)
    requires start + n <= |s| && forall i :: start <= i < start + n ==> s[i] != prefix
    ensures EraseComment(prefix, s, start) == EraseComment(prefix, s, start + n)
  {
    var a, b := Find(s, prefix, start), Find(s, prefix, start + n);
    if a < |s| || b < |s| {
      assert a == b;
    }
  }

  /** An escape right before the prefix at the current position is dropped and the search goes on behind it. */
  lemma DropEscape(prefix: char, p: string, rest: string)
    requires prefix != ESC
    ensures EraseComment(prefix, p + [ESC, prefix] + rest, |p|) == EraseComment(prefix, p + [prefix] + rest, |p| + 1)
  {
    var t := p + [ESC, prefix] + rest;
    assert t[|p|] == ESC && t[|p| + 1] == prefix;
    assert Find(t, prefix, |p|) == |p| + 1;
    assert t[..|p|] + t[|p| + 1..] == p + [prefix] + rest;
  }

  /**
    What erasing does, read from left to right: an escaped prefix stands for itself, one that is not escaped ends the
    text, and every other character stays.
   */
  function Scan(prefix: char, s: string): (t: string)
    decreases |s|
  {
    if s == "" || s[0] == prefix then ""
    else if s[0] == ESC && |s| > 1 && s[1] == prefix then [prefix] + Scan(prefix, s[2..])
    else [s[0]] + Scan(prefix, s[1..])
  }

  /** The search that goes over the text again and again does the same, for every text. */
  lemma {:induction false} EraseIsScan(prefix: char, p: string, s: string)
    requires prefix != ESC && (s != "" && s[0] == prefix ==> p == "" || p[|p| - 1] != ESC)
    ensures EraseComment(prefix, p + s, |p|) == p + Scan(prefix, s)
    decreases |s|
  {
    hide EraseComment, Scan;
    ScanTurn(prefix, s);
    if s == "" {
      NothingToErase(prefix, p);
      assert p + "" == p;
    } else if s[0] == prefix {
      CutHere(prefix, p, s);
    } else if s[0] == ESC && |s| > 1 && s[1] == prefix {
      assert s == [ESC, prefix] + s[2..];
      Associate(p, [ESC, prefix], s[2..]);
      DropEscape(prefix, p, s[2..]);
      EraseIsScan(prefix, p + [prefix], s[2..]);
      Associate(p, [prefix], Scan(prefix, s[2..]));
    } else {
      assert p + s == p + [s[0]] + s[1..];
      SkipOthers(prefix, p + s, |p|, 1);
      EraseIsScan(prefix, p + [s[0]], s[1..]);
      Associate(p, [s[0]], Scan(prefix, s[1..]));
    }
  }

  lemma ScanTurn(prefix: char, s: string)
    ensures Scan(prefix, s)
         == if s == "" || s[0] == prefix then ""
            else if s[0] == ESC && |s| > 1 && s[1] == prefix then [prefix] + Scan(prefix, s[2..])
            else [s[0]] + Scan(prefix, s[1..])
  {
  }

  lemma CutHere(prefix: char, p: string, s: string)
    requires s != "" && s[0] == prefix && (p == "" || p[|p| - 1] != ESC)
    ensures EraseComment(prefix, p + s, |p|) == p + ""
  {
    assert (p + s)[|p|] == prefix && Find(p + s, prefix, |p|) == |p|;
    assert (p + s)[..|p|] == p;
  }

  /** The two passes of the parser, each told as a scan. */
  lemma ErasedBy(s: string)
    ensures EraseComments(s) == Scan(';', Scan('#', s))
  {
    hide EraseComment, Scan;
    EraseIsScan('#', "", s);
    EraseIsScan(';', "", Scan('#', s));
    assert "" + s == s && "" + Scan('#', s) == Scan('#', s) && "" + Scan(';', Scan('#', s)) == Scan(';', Scan('#', s));
  }

  /** Whether a text ends with an escape, so that a prefix put behind it would be an escaped one. */
  predicate EndsEscaped(s: string) { s != "" && s[|s| - 1] == ESC }

  /** A scan takes back exactly the escapes of its own prefix, wherever they stand, and then goes on with the rest. */
  lemma {:induction false} ScanEscaped(prefix: char, others: set<char>, s: string, rest: string)
    requires prefix != ESC && prefix !in others && ESC !in others
    requires rest != "" && rest[0] == prefix ==> !EndsEscaped(s)
    ensures Scan(prefix, EscapeBy(others + {prefix}, s) + rest) == EscapeBy(others, s) + Scan(prefix, rest)
    decreases |s|
  {
    hide Scan, EscapeBy;
    var all := others + {prefix};
    EscapeTurn(all, s);
    EscapeTurn(others, s);
    if s == "" {
      assert "" + rest == rest && "" + Scan(prefix, rest) == Scan(prefix, rest);
    } else {
      var c, tail, done := s[0], EscapeBy(all, s[1..]) + rest, EscapeBy(others, s[1..]);
      assert EndsEscaped(s[1..]) ==> EndsEscaped(s);
      ScanEscaped(prefix, others, s[1..], rest);
      var mark := if c in all then [ESC, c] else [c];
      assert EscapeBy(all, s) + rest == mark + tail by { Associate(mark, EscapeBy(all, s[1..]), rest); }
      if c == prefix {
        ScanTurn(prefix, mark + tail);
        assert (mark + tail)[2..] == tail;
        Associate([c], done, Scan(prefix, rest));
      } else {
        NotEscaping(all, s[1..], rest, prefix);
        ScanMark(prefix, mark, tail, c in all);
        Associate(mark, done, Scan(prefix, rest));
      }
    }
  }

  /** A prefix stands at the start of what follows only when there is nothing more of the escaped text. */
  lemma NotEscaping(all: set<char>, s: string, rest: string, prefix: char)
    requires prefix in all && prefix != ESC
    ensures var tail := EscapeBy(all, s) + rest;
            tail != "" && tail[0] == prefix ==> s == "" && rest != "" && rest[0] == prefix
  {
    EscapeTurn(all, s);
    hide EscapeBy;
  }

  lemma ScanMark(prefix: char, mark: string, tail: string, escaped: bool)
    requires prefix != ESC && |mark| == (if escaped then 2 else 1)
    requires escaped ==> mark[0] == ESC && mark[1] != prefix && mark[1] != ESC
    requires !escaped ==> mark[0] != prefix && !(mark[0] == ESC && tail != "" && tail[0] == prefix)
    ensures Scan(prefix, mark + tail) == mark + Scan(prefix, tail)
  {
    hide Scan;
    ScanTurn(prefix, mark + tail);
    assert (mark + tail)[|mark|..] == tail;
    if escaped {
      ScanTurn(prefix, (mark + tail)[1..]);
      assert (mark + tail)[1..][1..] == tail;
      assert [mark[0]] + ([mark[1]] + Scan(prefix, tail)) == mark + Scan(prefix, tail);
    }
  }

  lemma EscapeTurn(prefixes: set<char>, s: string)
    ensures EscapeBy(prefixes, s)
         == if s == "" then "" else (if s[0] in prefixes then [ESC, s[0]] else [s[0]]) + EscapeBy(prefixes, s[1..])
  {
  }

  lemma NothingToErase(prefix: char, p: string)
    ensures EraseComment(prefix, p, |p|) == p
  {
    assert Find(p, prefix, |p|) == |p|;
  }

  lemma {:induction false} EscapeNothing(s: string)
    ensures EscapeBy({}, s) == s
  {
    if s == "" {
    } else {
      EscapeNothing(s[1..]);
    }
  }

  lemma EscapeSets()
    ensures {';'} + {'#'} == {'#', ';'} && {} + {';'} == {';'}
  {
  }

  /** Erasing the escapes of a text that something else follows. */
  lemma ErasedBefore(s: string, rest: string)
    requires rest != "" && rest[0] == '#' ==> !EndsEscaped(s)
    requires var more := Scan('#', rest); more != "" && more[0] == ';' ==> !EndsEscaped(s)
    ensures EraseComments(Escape(s) + rest) == s + Scan(';', Scan('#', rest))
  {
    hide Scan, EscapeBy;
    EscapeSets();
    ErasedBy(Escape(s) + rest);
    ScanEscaped('#', {';'}, s, rest);
    ScanEscaped(';', {}, s, Scan('#', rest));
    EscapeNothing(s);
  }

  /** Erasing comments takes back every escape, for every string. */
  lemma EraseUndoesEscape(s: string)
    ensures EraseComments(Escape(s)) == s
  {
    hide EscapeBy, EraseComments;
    ErasedBefore(s, "");
    assert Escape(s) + "" == Escape(s) && s + "" == s;
  }

  /**
    A comment behind an escaped text is cut off, whatever it says and whatever the text holds, if and only if the text
    does not end with an escape character, which would escape the prefix.
   */
  lemma CommentCutIff(s: string, c: char, rest: string)
    requires c in {'#', ';'}
    ensures EraseComments(Escape(s) + [c] + rest) == s <==> !EndsEscaped(s)
  {
    hide Scan, EscapeBy, EraseComments;
    var note := [c] + rest;
    assert Escape(s) + [c] + rest == Escape(s) + note;
    ScanTurn('#', note);
    ScanTurn(';', Scan('#', note));
    ScanTurn(';', "");
    if !EndsEscaped(s) {
      ErasedBefore(s, note);
      assert s + "" == s;
    } else {
      EscapedPrefixStays(s[..|s| - 1], c, rest);
      assert s == s[..|s| - 1] + [ESC];
    }
  }

  /** Behind an escape the prefix becomes part of the text. */
  lemma EscapedPrefixStays(s: string, c: char, rest: string)
    requires c in {'#', ';'}
    ensures EraseComments(Escape(s + [ESC]) + [c] + rest) != s + [ESC]
  {
    hide Scan, EscapeBy, EraseComments;
    var note := [ESC, c] + rest;
    EscapeAppend(s, [ESC]);
    EscapeOne(ESC);
    assert Escape(s + [ESC]) + [c] + rest == Escape(s) + note;
    ScanTurn('#', note);
    assert note[2..] == rest && note[1..] == [c] + rest;
    ScanTurn('#', [c] + rest);
    assert ([c] + rest)[1..] == rest;
    var once := Scan('#', note);
    ErasedBefore(s, note);
    ScanTurn(';', once);
    assert c == ';' ==> once[0] == ESC && once[1] == ';';
    assert EraseComments(Escape(s) + note)[|s|] == c;
  }

  lemma {:induction false} EraseKeepsCharacters(prefix: char, s: string, start: nat)
    ensures forall c :: c in EraseComment(prefix, s, start) ==> c in s
    decreases |s|
  {
    var pos := Find(s, prefix, start);
    if pos >= |s| || pos == 0 || s[pos - 1] != ESC {
    } else {
      var t := s[..pos - 1] + s[pos..];
      EraseKeepsCharacters(prefix, t, pos);
      assert forall c :: c in t ==> c in s;
    }
  }

  lemma EraseCommentsKeepsCharacters(s: string)
    ensures forall c :: c in EraseComments(s) ==> c in s
  {
    hide EraseComment;
    EraseKeepsCharacters('#', s, 0);
    EraseKeepsCharacters(';', EraseComment('#', s, 0), 0);
  }

  // ---------------------------------------------------------------- parsing

  type Table = map<string, map<string, string>>

  datatype Failure = SectionNotClosed | SectionEmpty | NoSection | NoSeparator

  /** The parser between two lines, or the exception it threw with the table as it then was. */
  datatype Parser = Reading(table: Table, section: Option<string>, lineNo: nat)
                  | Failed(failure: Failure, table: Table, lineNo: nat)

  /** One line of the input. */
  function ReadLine(p: Parser, raw: string): (r: Parser)
    requires p.Reading?
  {
    var line, n := Trim(EraseComments(raw)), p.lineNo + 1;
    if line == "" then Reading(p.table, p.section, n)
    else if line[0] == '[' then
      var pos := Find(line, ']', 0);
      if pos >= |line| then Failed(SectionNotClosed, p.table, n)
      else if pos == 1 then Failed(SectionEmpty, p.table, n)
      else
        Reading(OpenSection(p.table, line[1..pos]), Some(line[1..pos]), n)
    else if p.section.None? then Failed(NoSection, p.table, n)
    else
      var pos := Find(line, '=', 0);
      if pos >= |line| then Failed(NoSeparator, p.table, n)
      else
        Reading(PutField(p.table, p.section.value, Trim(line[..pos]), Trim(line[pos + 1..])), p.section, n)
  }

  /** `(*this)[name]`: the section is created when it is not there. */
  function OpenSection(t: Table, name: string): Table
  {
    if name in t then t else t[name := map[]]
  }

  /** `(*currentSection)[key] = value`. */
  function PutField(t: Table, name: string, key: string, value: string): Table
  {
    var o := OpenSection(t, name);
    o[name := o[name][key := value]]
  }

  function ReadLines(p: Parser, lines: seq<string>): Parser
    decreases |lines|
  {
    if lines == [] || p.Failed? then p else ReadLines(ReadLine(p, lines[0]), lines[1..])
  }

  /** What repeated `getline` yields: the pieces between newlines, the last one too. */
  function Lines(s: string): (ls: seq<string>)
    decreases |s|
  {
    var pos := Find(s, '\n', 0);
    if pos >= |s| then [s] else [s[..pos]] + Lines(s[pos + 1..])
  }

  const START := Reading(map[], None, 0)

  function Parse(content: string): Parser
  {
    ReadLines(START, Lines(content))
  }

  // ---------------------------------------------------------------- printing

  type Field = (string, string)
  datatype Section = Section(name: string, fields: seq<Field>)

  function FieldLine(f: Field): string { f.0 + "=" + f.1 }
  function SectionLine(name: string): string { "[" + name + "]" }

  function RenderFields(fs: seq<Field>): string
  {
    if fs == [] then ""
    else Escape(fs[0].0) + "=" + Escape(fs[0].1) + "\n" + RenderFields(fs[1..])
  }

  function RenderSection(s: Section): string
  {
    "[" + Escape(s.name) + "]\n" + RenderFields(s.fields)
  }

  /** The text of an INI file, its sections and fields listed in some order. */
  function Render(l: seq<Section>): string
  {
    if l == [] then "" else RenderSection(l[0]) + Render(l[1..])
  }

  /** The table a listing stands for. */
  function PutFields(t: Table, name: string, fs: seq<Field>): Table
    decreases |fs|
  {
    if fs == [] then t else PutFields(PutField(t, name, fs[0].0, fs[0].1), name, fs[1..])
  }

  function Build(t: Table, l: seq<Section>): Table
    decreases |l|
  {
    if l == [] then t else Build(PutFields(OpenSection(t, l[0].name), l[0].name, l[0].fields), l[1..])
  }

  /** No section and no field of a section is listed twice, as in a `std::map`. */
  ghost predicate NoRepeats(l: seq<Section>)
  {
    && (forall i, j :: 0 <= i < j < |l| ==> l[i].name != l[j].name)
    && (forall i :: 0 <= i < |l| ==> DistinctKeys(l[i].fields))
  }

  ghost predicate DistinctKeys(fs: seq<Field>)
  {
    forall i, j :: 0 <= i < j < |fs| ==> fs[i].0 != fs[j].0
  }

  // ---------------------------------------------------------------- what can be printed and read back

  predicate GoodName(name: string) { name != "" && ']' !in name && '\n' !in name }

  predicate GoodField(k: string, v: string)
  {
    && Trimmed(k) && Trimmed(v) && '=' !in k && '\n' !in k && '\n' !in v
    && (k != "" ==> k[0] != '[')
  }

  ghost predicate GoodTable(t: Table)
  {
    forall name :: name in t ==> GoodName(name) && forall k :: k in t[name] ==> GoodField(k, t[name][k])
  }

  ghost predicate GoodListing(l: seq<Section>)
  {
    forall i :: 0 <= i < |l| ==> GoodSection(l[i])
  }

  ghost predicate GoodSection(s: Section)
  {
    GoodName(s.name) && forall j :: 0 <= j < |s.fields| ==> GoodField(s.fields[j].0, s.fields[j].1)
  }

  // ---------------------------------------------------------------- everything that was read is good

  /** Whatever a line says, the table it leaves holds only names and values of the printable kind. */
  lemma ReadLineGood(p: Parser, raw: string)
    requires p.Reading? && GoodTable(p.table) && '\n' !in raw
    requires p.section.Some? ==> GoodName(p.section.value)
    ensures var q := ReadLine(p, raw);
            GoodTable(q.table) && (q.Reading? && q.section.Some? ==> GoodName(q.section.value))
  {
    hide Trim, EraseComments;
    var erased := EraseComments(raw);
    EraseCommentsKeepsCharacters(raw);
    TrimIs(erased);
    var line := Trim(erased);
    assert '\n' !in line;
    if line != "" && line[0] != '[' {
      var pos := Find(line, '=', 0);
      if pos < |line| {
        TrimIs(line[..pos]);
        TrimIs(line[pos + 1..]);
        assert '=' !in line[..pos] && '\n' !in line[..pos] && '\n' !in line[pos + 1..];
        assert pos > 0 ==> line[..pos][0] == line[0];
        assert GoodField(Trim(line[..pos]), Trim(line[pos + 1..])) by {
          if pos == 0 {
            assert line[..pos] == "";
          }
        }
      }
    } else if line != "" {
      var pos := Find(line, ']', 0);
      if 1 < pos < |line| {
        var name := line[1..pos];
        assert ']' !in name && '\n' !in name && name != "";
      }
    }
  }

  lemma {:induction false} ReadLinesGood(p: Parser, lines: seq<string>)
    requires GoodTable(p.table) && (p.Reading? && p.section.Some? ==> GoodName(p.section.value))
    requires forall i :: 0 <= i < |lines| ==> '\n' !in lines[i]
    ensures GoodTable(ReadLines(p, lines).table)
    decreases |lines|
  {
    hide ReadLine, GoodTable, GoodName;
    if lines == [] || !p.Reading? {
    } else {
      ReadLineGood(p, lines[0]);
      ReadLinesGood(ReadLine(p, lines[0]), lines[1..]);
    }
  }

  lemma {:induction false} LinesHaveNoNewline(s: string)
    ensures forall i :: 0 <= i < |Lines(s)| ==> '\n' !in Lines(s)[i]
    decreases |s|
  {
    var pos := Find(s, '\n', 0);
    if pos >= |s| {
    } else {
      LinesHaveNoNewline(s[pos + 1..]);
      assert '\n' !in s[..pos];
    }
  }

  lemma ParseGood(content: string)
    ensures GoodTable(Parse(content).table)
  {
    LinesHaveNoNewline(content);
    ReadLinesGood(START, Lines(content));
  }

  // ---------------------------------------------------------------- good listings read back

  lemma {:induction false} EscapeAppend(a: string, b: string)
    ensures Escape(a + b) == Escape(a) + Escape(b)
    decreases |a|
  {
    if a == "" {
      assert a + b == b;
    } else {
      assert (a + b)[0] == a[0] && (a + b)[1..] == a[1..] + b;
      EscapeAppend(a[1..], b);
    }
  }

  lemma {:induction false} EscapeKeepsNewlines(s: string)
    ensures '\n' in Escape(s) <==> '\n' in s
    decreases |s|
  {
    if s == "" {
    } else {
      EscapeKeepsNewlines(s[1..]);
      assert s == [s[0]] + s[1..];
    }
  }

  /** The printed lines are the escaped field and section lines. */
  lemma PrintedLines(f: Field, name: string)
    ensures Escape(FieldLine(f)) == Escape(f.0) + "=" + Escape(f.1)
    ensures Escape(SectionLine(name)) == "[" + Escape(name) + "]"
  {
    EscapeAppend(f.0 + "=", f.1);
    EscapeAppend(f.0, "=");
    assert Escape("=") == "=" by { EscapeOne('='); }
    EscapeAppend("[" + name, "]");
    EscapeAppend("[", name);
    EscapeOne('[');
    EscapeOne(']');
  }

  lemma EscapeOne(c: char)
    requires c != '#' && c != ';'
    ensures Escape([c]) == [c]
  {
    assert [c][1..] == "" && EscapeBy({'#', ';'}, "") == "";
  }

  lemma LinesFirst(line: string, rest: string)
    requires '\n' !in line
    ensures Lines(line + "\n" + rest) == [line] + Lines(rest)
  {
    var s := line + "\n" + rest;
    assert s[|line|] == '\n' && forall i :: 0 <= i < |line| ==> s[i] == line[i];
    assert Find(s, '\n', 0) == |line|;
    assert s[..|line|] == line && s[|line| + 1..] == rest;
  }

  /** A printed field line is read as that field. */
  lemma ReadFieldLine(p: Parser, f: Field)
    requires p.Reading? && p.section.Some? && GoodField(f.0, f.1)
    ensures ReadLine(p, Escape(FieldLine(f)))
         == Reading(PutField(p.table, p.section.value, f.0, f.1), p.section, p.lineNo + 1)
  {
    hide Trim, EraseComments, Escape;
    var line := FieldLine(f);
    EraseUndoesEscape(line);
    assert line[|f.0|] == '=';
    assert Trimmed(line) by {
      assert line[0] == if f.0 == "" then '=' else f.0[0];
      assert line[|line| - 1] == if f.1 == "" then '=' else f.1[|f.1| - 1];
    }
    TrimIs(line);
    assert forall i :: 0 <= i < |f.0| ==> line[i] == f.0[i];
    assert Find(line, '=', 0) == |f.0|;
    assert line[..|f.0|] == f.0 && line[|f.0| + 1..] == f.1;
    TrimIs(f.0);
    TrimIs(f.1);
  }

  /** A printed section line opens that section. */
  lemma ReadSectionLine(p: Parser, name: string)
    requires p.Reading? && GoodName(name)
    ensures ReadLine(p, Escape(SectionLine(name))) == Reading(OpenSection(p.table, name), Some(name), p.lineNo + 1)
  {
    hide Trim, EraseComments, Escape;
    var line := SectionLine(name);
    EraseUndoesEscape(line);
    TrimIs(line);
    assert line[|name| + 1] == ']' && forall i :: 0 < i < |name| + 1 ==> line[i] == name[i - 1];
    assert Find(line, ']', 0) == |name| + 1;
    assert line[1..|name| + 1] == name;
  }

  lemma ReadLinesStep(p: Parser, line: string, rest: seq<string>)
    requires p.Reading?
    ensures ReadLines(p, [line] + rest) == ReadLines(ReadLine(p, line), rest)
  {
    hide ReadLine;
    assert ([line] + rest)[1..] == rest;
  }

  lemma {:induction false} ReadRenderedFields(p: Parser, fs: seq<Field>, rest: string)
    requires p.Reading? && p.section.Some?
    requires forall j :: 0 <= j < |fs| ==> GoodField(fs[j].0, fs[j].1)
    ensures ReadLines(p, Lines(RenderFields(fs) + rest))
         == ReadLines(Reading(PutFields(p.table, p.section.value, fs), p.section, p.lineNo + |fs|), Lines(rest))
    decreases |fs|
  {
    hide ReadLine, ReadLines, Lines, Escape, PutField;
    if fs == [] {
      assert RenderFields(fs) + rest == rest;
    } else {
      var f, tail := fs[0], RenderFields(fs[1..]) + rest;
      var line := FieldLine(f);
      PrintedLines(f, "");
      assert RenderFields(fs) + rest == Escape(line) + "\n" + tail;
      NoNewlineInFieldLine(f);
      LinesFirst(Escape(line), tail);
      ReadLinesStep(p, Escape(line), Lines(tail));
      ReadFieldLine(p, f);
      ReadRenderedFields(ReadLine(p, Escape(line)), fs[1..], rest);
    }
  }

  lemma NoNewlineInFieldLine(f: Field)
    requires GoodField(f.0, f.1)
    ensures '\n' !in Escape(FieldLine(f))
  {
    EscapeKeepsNewlines(FieldLine(f));
  }

  lemma {:induction false} ReadRendered(p: Parser, l: seq<Section>)
    requires p.Reading? && GoodListing(l)
    ensures var q := ReadLines(p, Lines(Render(l)));
            q.Reading? && q.table == Build(p.table, l)
    decreases |l|
  {
    hide ReadLine, ReadLines, Lines, Escape, PutFields, RenderFields;
    if l == [] {
      ReadNothing(p);
    } else {
      var s, rest := l[0], Render(l[1..]);
      assert GoodSection(s);
      var line := SectionLine(s.name);
      PrintedLines(("", ""), s.name);
      assert Render(l) == Escape(line) + "\n" + (RenderFields(s.fields) + rest);
      EscapeKeepsNewlines(line);
      LinesFirst(Escape(line), RenderFields(s.fields) + rest);
      ReadLinesStep(p, Escape(line), Lines(RenderFields(s.fields) + rest));
      ReadSectionLine(p, s.name);
      var begun := ReadLine(p, Escape(line));
      ReadRenderedFields(begun, s.fields, rest);
      ReadRendered(Reading(PutFields(begun.table, s.name, s.fields), Some(s.name), begun.lineNo + |s.fields|), l[1..]);
    }
  }

  lemma ReadNothing(p: Parser)
    requires p.Reading?
    ensures var q := ReadLines(p, Lines("")); q.Reading? && q.table == p.table
  {
    hide ReadLine, ReadLines, Lines;
    OnlyLine();
    ReadEmptyLine(p);
    ReadLinesStep(p, "", []);
    ReadLinesStop(ReadLine(p, ""), []);
    assert [""] + [] == [""];
  }

  lemma OnlyLine()
    ensures Lines("") == [""]
  {
  }

  lemma ReadEmptyLine(p: Parser)
    requires p.Reading?
    ensures var q := ReadLine(p, ""); q.Reading? && q.table == p.table
  {
    assert EraseComments("") == "";
    assert Trim("") == "";
  }

  // ---------------------------------------------------------------- what a line means

  /** A line of the file that stands for the text: escaped, with white space around it and a comment behind it. */
  ghost predicate Decorates(raw: string, text: string)
  {
    exists a, b, note :: Decoration(raw, text, a, b, note)
  }

  predicate Decoration(raw: string, text: string, a: string, b: string, note: string)
  {
    && Blank(a) && Blank(b) && raw == Escape(a + text + b) + note
    && (note == "" || ((note[0] == '#' || note[0] == ';') && !EndsEscaped(a + text + b)))
  }

  /** The text is what the parser sees of such a line. */
  lemma DecorationSeen(raw: string, text: string)
    requires Trimmed(text) && Decorates(raw, text)
    ensures Trim(EraseComments(raw)) == text
  {
    hide Trim, EraseComments, Escape, Blank;
    var a, b, note :| Decoration(raw, text, a, b, note);
    var s := a + text + b;
    if note == "" {
      EraseUndoesEscape(s);
      assert Escape(s) + "" == Escape(s);
    } else {
      CommentCutIff(s, note[0], note[1..]);
      assert raw == Escape(s) + [note[0]] + note[1..];
    }
    TrimPadded(a, text, b);
  }

  lemma EscapedDecorates(text: string)
    ensures Decorates(Escape(text), text)
  {
    hide Escape;
    BlankOne(' ');
    assert "" + text + "" == text && Escape(text) + "" == Escape(text);
    assert Decoration(Escape(text), text, "", "", "");
  }

  /** A comment alone, or white space alone, is a line without text. */
  lemma CommentLineDecorates(a: string, note: string)
    requires Blank(a) && (note == "" || note[0] == '#' || note[0] == ';')
    ensures Decorates(a + note, "")
  {
    hide Blank;
    BlankOne(' ');
    BlankUnescaped(a);
    assert a + "" + "" == a;
    assert Decoration(a + note, "", a, "", note);
  }

  lemma {:induction false} BlankUnescaped(a: string)
    requires Blank(a)
    ensures Escape(a) == a && !EndsEscaped(a)
    decreases |a|
  {
    if a == "" {
    } else {
      BlankUnescaped(a[1..]);
      assert a == [a[0]] + a[1..];
    }
  }

  /** A line is read by its text alone. */
  lemma ReadDecorated(p: Parser, raw: string, text: string)
    requires p.Reading? && Trimmed(text) && Decorates(raw, text)
    ensures ReadLine(p, raw) == ReadLine(p, Escape(text))
  {
    hide Trim, EraseComments, Escape;
    DecorationSeen(raw, text);
    EscapedDecorates(text);
    DecorationSeen(Escape(text), text);
  }

  /** An empty line, or a line with nothing but a comment, is skipped. */
  lemma IdleLine(p: Parser, raw: string)
    requires p.Reading? && Decorates(raw, "")
    ensures ReadLine(p, raw) == Reading(p.table, p.section, p.lineNo + 1)
  {
    hide Trim, EraseComments;
    DecorationSeen(raw, "");
  }

  /** A line that begins with `[` opens the section named up to the first `]`, whatever follows, or is an error. */
  lemma SectionLineMeans(p: Parser, raw: string, name: string, rest: string)
    requires p.Reading? && Decorates(raw, "[" + name + rest) && Trimmed("[" + name + rest)
    requires ']' !in name && (rest == "" || rest[0] == ']')
    ensures ReadLine(p, raw)
         == if rest == "" then Failed(SectionNotClosed, p.table, p.lineNo + 1)
            else if name == "" then Failed(SectionEmpty, p.table, p.lineNo + 1)
            else Reading(OpenSection(p.table, name), Some(name), p.lineNo + 1)
  {
    hide Trim, EraseComments, Decorates;
    var line := "[" + name + rest;
    DecorationSeen(raw, line);
    assert forall i :: 0 < i <= |name| ==> line[i] == name[i - 1];
    if rest != "" {
      assert line[|name| + 1] == ']' && Find(line, ']', 0) == |name| + 1;
      assert line[1..|name| + 1] == name;
    } else {
      assert |line| == |name| + 1;
      assert Find(line, ']', 0) >= |line|;
    }
  }

  /** Any other line is a field of the open section, cut at the first `=`, or an error. */
  lemma FieldLineMeans(p: Parser, raw: string, key: string, rest: string)
    requires p.Reading? && Decorates(raw, key + rest) && Trimmed(key + rest)
    requires '=' !in key && (rest == "" || rest[0] == '=') && key + rest != "" && (key + rest)[0] != '['
    ensures ReadLine(p, raw)
         == if p.section.None? then Failed(NoSection, p.table, p.lineNo + 1)
            else if rest == "" then Failed(NoSeparator, p.table, p.lineNo + 1)
            else Reading(PutField(p.table, p.section.value, Trim(key), Trim(rest[1..])), p.section, p.lineNo + 1)
  {
    hide Trim, EraseComments, Decorates;
    var line := key + rest;
    DecorationSeen(raw, line);
    assert forall i :: 0 <= i < |key| ==> line[i] == key[i];
    if rest != "" {
      assert line[|key|] == '=' && Find(line, '=', 0) == |key|;
      assert line[..|key|] == key && line[|key| + 1..] == rest[1..];
    } else {
      assert |line| == |key|;
      assert Find(line, '=', 0) >= |line|;
    }
  }

  // ---------------------------------------------------------------- comments in a file

  /** The lines stand for the texts in order, with lines of white space and comments anywhere between them. */
  ghost predicate Annotates(raws: seq<string>, texts: seq<string>)
    decreases |raws|
  {
    if raws == [] then texts == []
    else
      || (Decorates(raws[0], "") && Annotates(raws[1..], texts))
      || (texts != [] && Decorates(raws[0], texts[0]) && Annotates(raws[1..], texts[1..]))
  }

  function Escaped(texts: seq<string>): (lines: seq<string>)
    ensures |lines| == |texts| && forall i :: 0 <= i < |texts| ==> lines[i] == Escape(texts[i])
  {
    seq(|texts|, i requires 0 <= i < |texts| => Escape(texts[i]))
  }

  /** The parser is in the same state but for the line number. */
  predicate Agree(p: Parser, q: Parser)
  {
    p.table == q.table &&
    if p.Reading? then q.Reading? && p.section == q.section else q.Failed? && p.failure == q.failure
  }

  lemma ReadLineAgrees(p: Parser, q: Parser, raw: string)
    requires p.Reading? && Agree(p, q)
    ensures Agree(ReadLine(p, raw), ReadLine(q, raw))
  {
    hide Trim, EraseComments, OpenSection, PutField;
  }

  lemma {:induction false} ReadLinesAgree(p: Parser, q: Parser, lines: seq<string>)
    requires Agree(p, q)
    ensures Agree(ReadLines(p, lines), ReadLines(q, lines))
    decreases |lines|
  {
    hide ReadLine;
    if lines == [] || p.Failed? {
    } else {
      ReadLineAgrees(p, q, lines[0]);
      ReadLinesAgree(ReadLine(p, lines[0]), ReadLine(q, lines[0]), lines[1..]);
    }
  }

  /**
    Comments and layout do not matter: whatever white space and comments are added to the lines of any file, it is
    read to the same table, or fails for the same reason, as the bare lines.
   */
  lemma {:induction false} CommentsIgnored(p: Parser, raws: seq<string>, texts: seq<string>)
    requires Annotates(raws, texts) && forall i :: 0 <= i < |texts| ==> Trimmed(texts[i])
    ensures Agree(ReadLines(p, raws), ReadLines(p, Escaped(texts)))
    decreases |raws|
  {
    hide ReadLine, ReadLines, Decorates, Escape;
    if raws == [] {
      assert Escaped(texts) == [];
    } else if p.Failed? {
      ReadLinesStop(p, raws);
      ReadLinesStop(p, Escaped(texts));
    } else {
      assert raws == [raws[0]] + raws[1..];
      ReadLinesStep(p, raws[0], raws[1..]);
      var q := ReadLine(p, raws[0]);
      if Decorates(raws[0], "") && Annotates(raws[1..], texts) {
        IdleLine(p, raws[0]);
        CommentsIgnored(q, raws[1..], texts);
        ReadLinesAgree(q, p, Escaped(texts));
      } else {
        assert Escaped(texts) == [Escape(texts[0])] + Escaped(texts[1..]);
        ReadLinesStep(p, Escape(texts[0]), Escaped(texts[1..]));
        ReadDecorated(p, raws[0], texts[0]);
        CommentsIgnored(q, raws[1..], texts[1..]);
      }
    }
  }

  /** The texts of a listing's lines. */
  function FieldTexts(fs: seq<Field>): seq<string>
  {
    if fs == [] then [] else [fs[0].0 + "=" + fs[0].1] + FieldTexts(fs[1..])
  }

  function Texts(l: seq<Section>): seq<string>
  {
    if l == [] then [] else ["[" + l[0].name + "]"] + FieldTexts(l[0].fields) + Texts(l[1..])
  }

  lemma {:induction false} AnnotatedFields(p: Parser, fs: seq<Field>, rest: seq<string>)
    requires p.Reading? && p.section.Some? && forall j :: 0 <= j < |fs| ==> GoodField(fs[j].0, fs[j].1)
    ensures var q := ReadLines(p, Escaped(FieldTexts(fs) + rest));
            Agree(q, ReadLines(Reading(PutFields(p.table, p.section.value, fs), p.section, 0), Escaped(rest)))
    decreases |fs|
  {
    hide ReadLine, ReadLines, Escape, PutField;
    if fs == [] {
      assert FieldTexts(fs) + rest == rest;
      ReadLinesAgree(p, Reading(p.table, p.section, 0), Escaped(rest));
    } else {
      var more := FieldTexts(fs[1..]) + rest;
      assert FieldTexts(fs) + rest == [FieldLine(fs[0])] + more;
      assert Escaped([FieldLine(fs[0])] + more) == [Escape(FieldLine(fs[0]))] + Escaped(more);
      ReadLinesStep(p, Escape(FieldLine(fs[0])), Escaped(more));
      ReadFieldLine(p, fs[0]);
      AnnotatedFields(ReadLine(p, Escape(FieldLine(fs[0]))), fs[1..], rest);
    }
  }

  lemma {:induction false} BareListing(p: Parser, l: seq<Section>)
    requires p.Reading? && GoodListing(l)
    ensures var q := ReadLines(p, Escaped(Texts(l))); q.Reading? && q.table == Build(p.table, l)
    decreases |l|
  {
    hide ReadLine, ReadLines, Escape, PutFields, FieldTexts;
    if l == [] {
      assert Escaped(Texts(l)) == [];
      ReadLinesStop(p, []);
    } else {
      var s, more := l[0], FieldTexts(l[0].fields) + Texts(l[1..]);
      assert GoodSection(s);
      assert Texts(l) == [SectionLine(s.name)] + more;
      assert Escaped(Texts(l)) == [Escape(SectionLine(s.name))] + Escaped(more);
      ReadLinesStep(p, Escape(SectionLine(s.name)), Escaped(more));
      ReadSectionLine(p, s.name);
      var begun := ReadLine(p, Escape(SectionLine(s.name)));
      AnnotatedFields(begun, s.fields, Texts(l[1..]));
      BareListing(Reading(PutFields(begun.table, s.name, s.fields), Some(s.name), 0), l[1..]);
    }
  }

  lemma {:induction false} TextsTrimmed(l: seq<Section>)
    requires GoodListing(l)
    ensures forall i :: 0 <= i < |Texts(l)| ==> Trimmed(Texts(l)[i])
    decreases |l|
  {
    if l == [] {
    } else {
      assert GoodSection(l[0]);
      FieldTextsTrimmed(l[0].fields);
      TextsTrimmed(l[1..]);
    }
  }

  lemma {:induction false} FieldTextsTrimmed(fs: seq<Field>)
    requires forall j :: 0 <= j < |fs| ==> GoodField(fs[j].0, fs[j].1)
    ensures forall i :: 0 <= i < |FieldTexts(fs)| ==> Trimmed(FieldTexts(fs)[i])
    decreases |fs|
  {
    if fs == [] {
    } else {
      var f, line := fs[0], FieldLine(fs[0]);
      assert line[0] == if f.0 == "" then '=' else f.0[0];
      assert line[|line| - 1] == if f.1 == "" then '=' else f.1[|f.1| - 1];
      FieldTextsTrimmed(fs[1..]);
    }
  }

  /** Lines with a newline between each two. */
  function Joined(lines: seq<string>): string
    requires lines != []
  {
    if |lines| == 1 then lines[0] else lines[0] + "\n" + Joined(lines[1..])
  }

  lemma JoinedTurn(first: string, rest: seq<string>)
    ensures Joined([first]) == first
    ensures rest != [] ==> Joined([first] + rest) == first + "\n" + Joined(rest)
  {
    assert ([first] + rest)[1..] == rest;
  }

  /** Cutting a file at its newlines and joining the lines again gives the file. */
  lemma {:induction false} LinesJoined(s: string)
    ensures Lines(s) != [] && Joined(Lines(s)) == s
    decreases |s|
  {
    hide Joined, Lines;
    LinesStep(s);
    var pos := Find(s, '\n', 0);
    if pos >= |s| {
      JoinedTurn(s, []);
    } else {
      LinesJoined(s[pos + 1..]);
      JoinedTurn(s[..pos], Lines(s[pos + 1..]));
      assert s == s[..pos] + "\n" + s[pos + 1..];
    }
  }

  lemma OneLine(line: string)
    requires '\n' !in line
    ensures Lines(line) == [line]
  {
  }

  /** Joined lines without newlines in them are cut apart again, the last one with or without an end of line. */
  lemma {:induction false} JoinedLines(lines: seq<string>)
    requires lines != [] && forall i :: 0 <= i < |lines| ==> '\n' !in lines[i]
    ensures Lines(Joined(lines)) == lines
    decreases |lines|
  {
    hide Joined, Lines;
    assert lines == [lines[0]] + lines[1..];
    JoinedTurn(lines[0], lines[1..]);
    if |lines| == 1 {
      assert lines == [lines[0]];
      OneLine(lines[0]);
    } else {
      LinesFirst(lines[0], Joined(lines[1..]));
      JoinedLines(lines[1..]);
    }
  }

  lemma {:induction false} FieldsJoined(fs: seq<Field>, rest: seq<string>)
    requires rest != []
    ensures RenderFields(fs) + Joined(rest) == Joined(Escaped(FieldTexts(fs)) + rest)
    decreases |fs|
  {
    hide Escape, Joined;
    if fs == [] {
      assert Escaped(FieldTexts(fs)) + rest == rest;
    } else {
      var first, behind := FieldLine(fs[0]), Escaped(FieldTexts(fs[1..])) + rest;
      FieldsJoined(fs[1..], rest);
      PrintedLines(fs[0], "");
      assert Escaped(FieldTexts(fs)) + rest == [Escape(first)] + behind;
      JoinedTurn(Escape(first), behind);
      assert RenderFields(fs) + Joined(rest) == Escape(first) + "\n" + (RenderFields(fs[1..]) + Joined(rest));
    }
  }

  lemma SectionJoined(s: Section, rest: seq<string>)
    requires rest != []
    ensures RenderSection(s) + Joined(rest) == Joined(Escaped(["[" + s.name + "]"] + FieldTexts(s.fields)) + rest)
  {
    hide Escape, Joined, RenderFields, FieldTexts;
    var first, fields := Escape(SectionLine(s.name)), Escaped(FieldTexts(s.fields));
    FieldsJoined(s.fields, rest);
    PrintedLines(("", ""), s.name);
    assert Escaped(["[" + s.name + "]"] + FieldTexts(s.fields)) + rest == [first] + (fields + rest);
    JoinedTurn(first, fields + rest);
    Associate(first + "\n", RenderFields(s.fields), Joined(rest));
  }

  lemma {:induction false} RenderJoined(l: seq<Section>, rest: seq<string>)
    requires rest != []
    ensures Render(l) + Joined(rest) == Joined(Escaped(Texts(l)) + rest)
    decreases |l|
  {
    hide Escape, Joined, RenderSection, FieldTexts;
    if l == [] {
      assert Escaped(Texts(l)) + rest == rest;
    } else {
      var tail := Escaped(Texts(l[1..])) + rest;
      var own := ["[" + l[0].name + "]"] + FieldTexts(l[0].fields);
      RenderJoined(l[1..], rest);
      SectionJoined(l[0], tail);
      assert Escaped(own + Texts(l[1..])) == Escaped(own) + Escaped(Texts(l[1..]));
      Associate(Escaped(own), Escaped(Texts(l[1..])), rest);
      Associate(RenderSection(l[0]), Render(l[1..]), Joined(rest));
    }
  }

  /** The lines of a printed table: `[name]` for each section and `key=value` for each field, escaped, in order. */
  lemma PrintedIs(l: seq<Section>)
    requires GoodListing(l)
    ensures Lines(Render(l)) == Escaped(Texts(l)) + [""]
  {
    hide Escape, Joined, Render, Texts, Lines;
    var lines := Escaped(Texts(l)) + [""];
    RenderJoined(l, [""]);
    JoinedTurn("", []);
    assert Render(l) + "" == Render(l);
    forall i | 0 <= i < |lines| ensures '\n' !in lines[i] {
      if i < |Texts(l)| {
        OneLineTexts(l);
        EscapeKeepsNewlines(Texts(l)[i]);
      }
    }
    JoinedLines(lines);
  }

  lemma {:induction false} OneLineTexts(l: seq<Section>)
    requires GoodListing(l)
    ensures forall i :: 0 <= i < |Texts(l)| ==> '\n' !in Texts(l)[i]
    decreases |l|
  {
    if l == [] {
    } else {
      OneLineFields(l[0].fields);
      OneLineTexts(l[1..]);
    }
  }

  lemma {:induction false} OneLineFields(fs: seq<Field>)
    requires forall j :: 0 <= j < |fs| ==> GoodField(fs[j].0, fs[j].1)
    ensures forall i :: 0 <= i < |FieldTexts(fs)| ==> '\n' !in FieldTexts(fs)[i]
    decreases |fs|
  {
    if fs == [] {
    } else {
      OneLineFields(fs[1..]);
    }
  }

  /** A printed table with comments and white space added anywhere between and behind its lines is read back. */
  lemma AnnotatedReads(l: seq<Section>, raws: seq<string>)
    requires GoodListing(l) && raws != [] && Annotates(raws, Texts(l))
    requires forall i :: 0 <= i < |raws| ==> '\n' !in raws[i]
    ensures ReadsBack(Joined(raws), Build(map[], l))
  {
    hide ReadLine, ReadLines, Lines, Joined, Texts, Escape, Decorates;
    JoinedLines(raws);
    TextsTrimmed(l);
    CommentsIgnored(START, raws, Texts(l));
    BareListing(START, l);
  }

  /** An error names the line at which reading stops; without one every line was read. */
  lemma {:induction false} FailedAt(p: Parser, lines: seq<string>)
    requires p.Reading?
    ensures var q := ReadLines(p, lines);
            if q.Reading? then q.lineNo == p.lineNo + |lines|
            else
              var k := q.lineNo - p.lineNo - 1;
              && 0 <= k < |lines| && ReadLines(p, lines[..k]).Reading?
              && ReadLine(ReadLines(p, lines[..k]), lines[k]) == q
    decreases |lines|
  {
    hide ReadLine;
    if lines == [] {
    } else {
      var next := ReadLine(p, lines[0]);
      LineCounted(p, lines[0]);
      assert lines[..0] == [];
      if next.Reading? {
        FailedAt(next, lines[1..]);
        var q := ReadLines(p, lines);
        if q.Failed? {
          var k := q.lineNo - p.lineNo - 1;
          assert lines[..k] == [lines[0]] + lines[1..][..k - 1];
          ReadLinesStep(p, lines[0], lines[1..][..k - 1]);
        }
      }
    }
  }

  lemma LineCounted(p: Parser, raw: string)
    requires p.Reading?
    ensures ReadLine(p, raw).lineNo == p.lineNo + 1
  {
    hide Trim, EraseComments, OpenSection, PutField;
  }

  // ---------------------------------------------------------------- repeated sections and fields

  function LookUp(t: Table, name: string, key: string): Option<string>
  {
    if name in t && key in t[name] then Some(t[name][key]) else None
  }

  /** The value of the last field with that key. */
  function LastOf(fs: seq<Field>, key: string): Option<string>
  {
    if fs == [] then None
    else if fs[|fs| - 1].0 == key then Some(fs[|fs| - 1].1) else LastOf(fs[..|fs| - 1], key)
  }

  /** The fields of all sections with that name, in order. */
  function FieldsUnder(l: seq<Section>, name: string): seq<Field>
  {
    if l == [] then [] else (if l[0].name == name then l[0].fields else []) + FieldsUnder(l[1..], name)
  }

  function Either(first: Option<string>, otherwise: Option<string>): Option<string>
  {
    if first.Some? then first else otherwise
  }

  lemma {:induction false} LastOfBoth(a: seq<Field>, b: seq<Field>, key: string)
    ensures LastOf(a + b, key) == Either(LastOf(b, key), LastOf(a, key))
    decreases |b|
  {
    if b == [] {
      assert a + b == a;
    } else {
      assert (a + b)[..|a + b| - 1] == a + b[..|b| - 1];
      LastOfBoth(a, b[..|b| - 1], key);
    }
  }

  lemma {:induction false} FieldsLookUp(t: Table, name: string, fs: seq<Field>, key: string)
    ensures LookUp(PutFields(t, name, fs), name, key) == Either(LastOf(fs, key), LookUp(t, name, key))
    decreases |fs|
  {
    hide LastOf;
    if fs == [] {
      LastOfOne(("", ""), key);
    } else {
      LastOfOne(fs[0], key);
      LastOfBoth([fs[0]], fs[1..], key);
      assert fs == [fs[0]] + fs[1..];
      FieldsLookUp(PutField(t, name, fs[0].0, fs[0].1), name, fs[1..], key);
    }
  }

  lemma LastOfOne(f: Field, key: string)
    ensures LastOf([], key) == None && LastOf([f], key) == if f.0 == key then Some(f.1) else None
  {
  }

  lemma {:induction false} OtherLookUp(t: Table, name: string, fs: seq<Field>, other: string, key: string)
    requires other != name
    ensures LookUp(PutFields(t, name, fs), other, key) == LookUp(t, other, key)
    decreases |fs|
  {
    if fs == [] {
    } else {
      OtherLookUp(PutField(t, name, fs[0].0, fs[0].1), name, fs[1..], other, key);
    }
  }

  lemma {:induction false} BuildLookUp(t: Table, l: seq<Section>, name: string, key: string)
    ensures LookUp(Build(t, l), name, key) == Either(LastOf(FieldsUnder(l, name), key), LookUp(t, name, key))
    decreases |l|
  {
    hide LastOf, PutFields;
    if l == [] {
      LastOfOne(("", ""), key);
    } else {
      var s := l[0];
      var o := OpenSection(t, s.name);
      assert LookUp(o, name, key) == LookUp(t, name, key);
      BuildLookUp(PutFields(o, s.name, s.fields), l[1..], name, key);
      if s.name == name {
        FieldsLookUp(o, name, s.fields, key);
        LastOfBoth(s.fields, FieldsUnder(l[1..], name), key);
      } else {
        OtherLookUp(o, s.name, s.fields, name, key);
        assert [] + FieldsUnder(l[1..], name) == FieldsUnder(l[1..], name);
      }
    }
  }

  /**
    A file may repeat sections and fields: a section goes on where it was left, and of several fields with one key the
    last one counts.
   */
  lemma LastValueCounts(l: seq<Section>, name: string, key: string)
    ensures LookUp(Build(map[], l), name, key) == LastOf(FieldsUnder(l, name), key)
  {
    BuildLookUp(map[], l, name, key);
  }

  // ---------------------------------------------------------------- a good table has only good listings

  lemma {:induction false} PutFieldsKeeps(t: Table, name: string, fs: seq<Field>, key: string)
    requires name in t && key in t[name] && forall j :: 0 <= j < |fs| ==> fs[j].0 != key
    ensures var u := PutFields(t, name, fs); name in u && key in u[name] && u[name][key] == t[name][key]
    decreases |fs|
  {
    if fs == [] {
    } else {
      PutFieldsKeeps(PutField(t, name, fs[0].0, fs[0].1), name, fs[1..], key);
    }
  }

  lemma {:induction false} PutFieldsOthers(t: Table, name: string, fs: seq<Field>, other: string)
    requires name in t && other in t
    ensures var u := PutFields(t, name, fs); name in u && other in u && (other != name ==> u[other] == t[other])
    decreases |fs|
  {
    if fs == [] {
    } else {
      PutFieldsOthers(PutField(t, name, fs[0].0, fs[0].1), name, fs[1..], other);
    }
  }

  lemma {:induction false} PutFieldsHas(t: Table, name: string, fs: seq<Field>, j: nat)
    requires name in t && DistinctKeys(fs) && j < |fs|
    ensures var u := PutFields(t, name, fs); name in u && fs[j].0 in u[name] && u[name][fs[j].0] == fs[j].1
    decreases |fs|
  {
    var t1 := PutField(t, name, fs[0].0, fs[0].1);
    if j == 0 {
      PutFieldsKeeps(t1, name, fs[1..], fs[0].0);
    } else {
      PutFieldsHas(t1, name, fs[1..], j - 1);
    }
  }

  lemma {:induction false} BuildKeeps(t: Table, l: seq<Section>, name: string)
    requires name in t && forall i :: 0 <= i < |l| ==> l[i].name != name
    ensures name in Build(t, l) && Build(t, l)[name] == t[name]
    decreases |l|
  {
    if l == [] {
    } else {
      var o := OpenSection(t, l[0].name);
      PutFieldsOthers(o, l[0].name, l[0].fields, name);
      BuildKeeps(PutFields(o, l[0].name, l[0].fields), l[1..], name);
    }
  }

  lemma {:induction false} BuildHas(t: Table, l: seq<Section>, i: nat)
    requires NoRepeats(l) && i < |l|
    ensures var u := Build(t, l);
            && l[i].name in u
            && forall j :: 0 <= j < |l[i].fields| ==>
                 l[i].fields[j].0 in u[l[i].name] && u[l[i].name][l[i].fields[j].0] == l[i].fields[j].1
    decreases |l|
  {
    var o := OpenSection(t, l[0].name);
    var t1 := PutFields(o, l[0].name, l[0].fields);
    if i == 0 {
      PutFieldsOthers(o, l[0].name, l[0].fields, l[0].name);
      BuildKeeps(t1, l[1..], l[0].name);
      forall j | 0 <= j < |l[0].fields|
        ensures l[0].fields[j].0 in t1[l[0].name] && t1[l[0].name][l[0].fields[j].0] == l[0].fields[j].1
      {
        PutFieldsHas(o, l[0].name, l[0].fields, j);
      }
    } else {
      assert NoRepeats(l[1..]);
      BuildHas(t1, l[1..], i - 1);
    }
  }

  lemma ListingOfGoodTable(l: seq<Section>)
    requires NoRepeats(l) && GoodTable(Build(map[], l))
    ensures GoodListing(l)
  {
    forall i | 0 <= i < |l|
      ensures GoodSection(l[i])
    {
      BuildHas(map[], l, i);
      assert GoodName(l[i].name);
      forall j | 0 <= j < |l[i].fields|
        ensures GoodField(l[i].fields[j].0, l[i].fields[j].1)
      {
        assert l[i].fields[j].0 in Build(map[], l)[l[i].name];
      }
    }
  }

  /**
    The round trip, and exactly when it holds. Whatever the order in which a table's sections and fields are
    printed, reading the text gives back the table if and only if the table is good: names of sections non-empty
    and without `]`, keys without `=` and not starting with `[`, keys and values trimmed, no newlines. Escape
    characters and comment prefixes may stand anywhere.
   */
  lemma RoundTripIff(l: seq<Section>)
    requires NoRepeats(l)
    ensures var p := Parse(Render(l));
            (p.Reading? && p.table == Build(map[], l)) <==> GoodTable(Build(map[], l))
  {
    ParseGood(Render(l));
    if GoodTable(Build(map[], l)) {
      ListingOfGoodTable(l);
      ReadRendered(START, l);
    }
  }

  // ---------------------------------------------------------------- every table has a listing

  function PutAll(m: map<string, string>, fs: seq<Field>): map<string, string>
    decreases |fs|
  {
    if fs == [] then m else PutAll(m[fs[0].0 := fs[0].1], fs[1..])
  }

  /** The fields are those of the section, each once. */
  ghost predicate SpellsFields(fs: seq<Field>, m: map<string, string>)
    decreases |fs|
  {
    if fs == [] then m == map[] else fs[0].0 in m && m[fs[0].0] == fs[0].1 && SpellsFields(fs[1..], m - {fs[0].0})
  }

  /** The sections are those of the table, each once. */
  ghost predicate Spells(l: seq<Section>, t: Table)
    decreases |l|
  {
    if l == [] then t == map[]
    else l[0].name in t && SpellsFields(l[0].fields, t[l[0].name]) && Spells(l[1..], t - {l[0].name})
  }

  lemma {:induction false} FieldsSpelled(m: map<string, string>) returns (fs: seq<Field>)
    ensures SpellsFields(fs, m)
    decreases |m|
  {
    if m == map[] {
      fs := [];
    } else {
      var k :| k in m;
      var rest := FieldsSpelled(m - {k});
      fs := [(k, m[k])] + rest;
      assert fs[1..] == rest;
    }
  }

  lemma {:induction false} TableSpelled(t: Table) returns (l: seq<Section>)
    ensures Spells(l, t)
    decreases |t|
  {
    if t == map[] {
      l := [];
    } else {
      var name :| name in t;
      var fs := FieldsSpelled(t[name]);
      var rest := TableSpelled(t - {name});
      l := [Section(name, fs)] + rest;
      assert l[1..] == rest;
    }
  }

  lemma {:induction false} SpelledFields(fs: seq<Field>, m: map<string, string>, m0: map<string, string>)
    requires SpellsFields(fs, m)
    ensures DistinctKeys(fs) && (forall i :: 0 <= i < |fs| ==> fs[i].0 in m) && PutAll(m0, fs) == m0 + m
    decreases |fs|
  {
    if fs == [] {
      assert m0 + m == m0;
    } else {
      var k := fs[0].0;
      SpelledFields(fs[1..], m - {k}, m0[k := fs[0].1]);
      assert m0[k := fs[0].1] + (m - {k}) == m0 + m;
      assert forall i :: 0 < i < |fs| ==> fs[i] == fs[1..][i - 1];
    }
  }

  lemma {:induction false} PutFieldsIs(t: Table, name: string, fs: seq<Field>)
    requires name in t
    ensures PutFields(t, name, fs) == t[name := PutAll(t[name], fs)]
    decreases |fs|
  {
    if fs == [] {
      assert t[name := t[name]] == t;
    } else {
      PutFieldsIs(PutField(t, name, fs[0].0, fs[0].1), name, fs[1..]);
    }
  }

  lemma {:induction false} SpelledDistinct(l: seq<Section>, t: Table)
    requires Spells(l, t)
    ensures NoRepeats(l) && forall i :: 0 <= i < |l| ==> l[i].name in t
    decreases |l|
  {
    hide DistinctKeys;
    if l == [] {
    } else {
      SpelledFields(l[0].fields, t[l[0].name], map[]);
      SpelledDistinct(l[1..], t - {l[0].name});
      assert forall i :: 0 < i < |l| ==> l[i] == l[1..][i - 1];
    }
  }

  /** A section listed first is put into the table whole. */
  lemma SectionPut(t0: Table, name: string, fs: seq<Field>, m: map<string, string>)
    requires name !in t0 && SpellsFields(fs, m)
    ensures PutFields(OpenSection(t0, name), name, fs) == t0[name := m]
  {
    hide PutFields, PutAll;
    SpelledFields(fs, m, map[]);
    PutFieldsIs(OpenSection(t0, name), name, fs);
    assert map[] + m == m;
    assert t0[name := map[]][name := m] == t0[name := m];
  }

  lemma {:induction false} SpelledTable(l: seq<Section>, t: Table, t0: Table)
    requires Spells(l, t) && t0.Keys !! t.Keys
    ensures Build(t0, l) == t0 + t
    decreases |l|
  {
    hide PutFields, SpellsFields;
    if l == [] {
      assert t0 + t == t0;
    } else {
      var name := l[0].name;
      SectionPut(t0, name, l[0].fields, t[name]);
      SpelledTable(l[1..], t - {name}, t0[name := t[name]]);
      assert t0[name := t[name]] + (t - {name}) == t0 + t;
    }
  }

  /** The listing has the sections and fields of the table, each once. */
  ghost predicate Lists(l: seq<Section>, t: Table) { NoRepeats(l) && Build(map[], l) == t }

  predicate ReadsBack(text: string, t: Table) { Parse(text).Reading? && Parse(text).table == t }

  /**
    The round trip for tables: every table can be listed, and it is read back from any text it is printed as if and
    only if it is good.
   */
  lemma TableRoundTripIff(t: Table)
    ensures exists l :: Lists(l, t)
    ensures forall l :: Lists(l, t) ==> (ReadsBack(Render(l), t) <==> GoodTable(t))
  {
    hide GoodTable, Parse;
    var l := TableSpelled(t);
    SpelledTable(l, t, map[]);
    SpelledDistinct(l, t);
    assert map[] + t == t;
    assert Lists(l, t);
    forall l | Lists(l, t) ensures ReadsBack(Render(l), t) <==> GoodTable(t) {
      RoundTripIff(l);
    }
  }

  // ---------------------------------------------------------------- the file object

  const PREFIXES: seq<string> := ["#", ";"]

  /** The index of the comment prefix standing at `startpos`, or the number of prefixes. */
  method FindCommentPrefix(str: string, startpos: nat) returns (index: nat)
    ensures index <= |PREFIXES|
    ensures index < |PREFIXES| ==> startpos < |str| && PREFIXES[index] == [str[startpos]]
    ensures index == |PREFIXES| <==> startpos >= |str| || str[startpos] !in {'#', ';'}
  {
    if startpos >= |str| {
      return |PREFIXES|;
    }
    var i := 0;
    while i < |PREFIXES|
      invariant 0 <= i <= |PREFIXES|
      invariant forall k :: 0 <= k < i ==> PREFIXES[k] != [str[startpos]]
    {
      var prefix := PREFIXES[i];
      if |prefix| + startpos <= |str| {
        var match_, j := true, 0;
        while j < |prefix| && match_
          invariant 0 <= j <= |prefix|
          invariant match_ <==> forall k :: 0 <= k < j ==> str[startpos + k] == prefix[k]
        {
          match_ := str[startpos + j] == prefix[j];
          j := j + 1;
        }
        if match_ {
          assert prefix == [str[startpos]];
          return i;
        }
      }
      i := i + 1;
    }
    assert PREFIXES[0] != [str[startpos]] && PREFIXES[1] != [str[startpos]];
    return |PREFIXES|;
  }

  lemma Associates(a: string, b: string, c: string)
    ensures a + b + c == a + (b + c)
  {
  }

  method WriteEscaped(os0: string, str: string) returns (os: string)
    ensures os == os0 + Escape(str)
  {
    hide EscapeBy;
    os := os0;
    var i := 0;
    assert str[0..] == str;
    while i < |str|
      invariant 0 <= i <= |str|
      invariant os + Escape(str[i..]) == os0 + Escape(str)
    {
      EscapeTurn({'#', ';'}, str[i..]);
      assert str[i..][1..] == str[i + 1..];
      Associates(os, if str[i] in {'#', ';'} then [ESC, str[i]] else [str[i]], Escape(str[i + 1..]));
      var prefix := FindCommentPrefix(str, i);
      if prefix < |PREFIXES| {
        os := os + [ESC] + PREFIXES[prefix];
        i := i + |PREFIXES[prefix]|;
      } else {
        os := os + [str[i]];
        i := i + 1;
      }
    }
    EscapeTurn({'#', ';'}, str[i..]);
    assert os + "" == os;
  }

  class IniFile {
    var sections: Table

    constructor ()
      ensures sections == map[]
    {
      sections := map[];
    }

    /** Prints the sections and fields in the order in which they are listed (`std::map` lists them sorted). */
    method Encode(listing: seq<Section>) returns (os: string)
      requires NoRepeats(listing) && Build(map[], listing) == sections
      ensures os == Render(listing)
    {
      hide RenderSection;
      os := "";
      var i := 0;
      assert listing[0..] == listing;
      while i < |listing|
        invariant 0 <= i <= |listing|
        invariant os + Render(listing[i..]) == Render(listing)
      {
        assert listing[i..][1..] == listing[i + 1..];
        Associate(os, RenderSection(listing[i]), Render(listing[i + 1..]));
        os := WriteSection(os, listing[i]);
        i := i + 1;
      }
      assert os + "" == os;
    }

    static method WriteSection(os0: string, section: Section) returns (os: string)
      ensures os == os0 + RenderSection(section)
    {
      hide Escape, RenderFields;
      os := os0 + "[";
      os := WriteEscaped(os, section.name);
      os := os + "]\n";
      ghost var head := os;
      var j := 0;
      assert section.fields[0..] == section.fields;
      while j < |section.fields|
        invariant 0 <= j <= |section.fields|
        invariant os + RenderFields(section.fields[j..]) == head + RenderFields(section.fields)
      {
        assert section.fields[j..][1..] == section.fields[j + 1..];
        FieldsTurn(section.fields[j..]);
        Associate(os, FieldText(section.fields[j]), RenderFields(section.fields[j + 1..]));
        os := WriteField(os, section.fields[j]);
        j := j + 1;
      }
      FieldsTurn(section.fields[j..]);
      assert os + "" == os;
      Associate(os0, "[" + Escape(section.name) + "]\n", RenderFields(section.fields));
      assert head == os0 + ("[" + Escape(section.name) + "]\n");
    }

    static method WriteField(os0: string, field: Field) returns (os: string)
      ensures os == os0 + FieldText(field)
    {
      hide Escape;
      os := WriteEscaped(os0, field.0);
      os := os + "=";
      os := WriteEscaped(os, field.1);
      os := os + "\n";
    }

    /** What the loop does with one line; `error` is the exception it throws. */
    method TakeLine(raw: string, section: Option<string>, lineNo: nat)
      returns (current: Option<string>, error: Option<Failure>)
      modifies this
      ensures ReadLine(Reading(old(sections), section, lineNo), raw)
           == match error
              case None => Reading(sections, current, lineNo + 1)
              case Some(failure) => Failed(failure, sections, lineNo + 1)
    {
      hide Trim, EraseComments, OpenSection, PutField;
      current, error := section, None;
      var line := Trim(EraseComments(raw));
      if |line| == 0 {
        return;
      }
      if line[0] == '[' {
        var bracket := Find(line, ']', 0);
        if bracket >= |line| {
          return section, Some(SectionNotClosed);
        }
        if bracket == 1 {
          return section, Some(SectionEmpty);
        }
        var secName := line[1..bracket];
        sections := OpenSection(sections, secName);
        current := Some(secName);
      } else {
        if section == None {
          return section, Some(NoSection);
        }
        var sep := Find(line, '=', 0);
        if sep >= |line| {
          return section, Some(NoSeparator);
        }
        var name := Trim(line[..sep]);
        var value := Trim(line[sep + 1..]);
        sections := PutField(sections, section.value, name, value);
      }
    }

    /** Reads a text line by line; on a parse error the exception leaves the table as it is at that point. */
    method Decode(content: string) returns (error: Option<(Failure, nat)>)
      modifies this
      ensures sections == Parse(content).table
      ensures error == match Parse(content)
                       case Reading(_, _, _) => None
                       case Failed(failure, _, lineNo) => Some((failure, lineNo))
    {
      hide ReadLine, ReadLines, Lines, Find;
      sections := map[];
      var lineNo, pos, eof := 0, 0, false;
      var currentSection: Option<string> := None;
      assert content[0..] == content;
      while !eof
        invariant 0 <= pos <= |content|
        invariant Parse(content)
               == ReadLines(Reading(sections, currentSection, lineNo), if eof then [] else Lines(content[pos..]))
        decreases !eof, |content| - pos
      {
        LinesTurn(content, pos);
        var end := Find(content, '\n', pos);
        var raw := if end < |content| then content[pos..end] else content[pos..];
        eof := end >= |content|;
        pos := if eof then pos else end + 1;
        ghost var before, rest := Reading(sections, currentSection, lineNo), if eof then [] else Lines(content[pos..]);
        ReadLinesStep(before, raw, rest);
        assert [raw] + [] == [raw];
        var failure;
        currentSection, failure := TakeLine(raw, currentSection, lineNo);
        lineNo := lineNo + 1;
        if failure.Some? {
          ReadLinesStop(ReadLine(before, raw), rest);
          return Some((failure.value, lineNo));
        }
      }
      ReadLinesStop(Reading(sections, currentSection, lineNo), []);
      return None;
    }
  }

  function FieldText(f: Field): string { Escape(f.0) + "=" + Escape(f.1) + "\n" }

  lemma FieldsTurn(fs: seq<Field>)
    ensures RenderFields(fs) == if fs == [] then "" else FieldText(fs[0]) + RenderFields(fs[1..])
  {
    hide Escape;
  }

  lemma ReadLinesStop(p: Parser, lines: seq<string>)
    requires lines == [] || p.Failed?
    ensures ReadLines(p, lines) == p
  {
  }

  lemma {:induction false} FindShift(s: string, c: char, pos: nat, start: nat)
    requires pos <= start <= |s|
    ensures Find(s[pos..], c, start - pos) == Find(s, c, start) - pos
    decreases |s| - start
  {
    if start >= |s| || s[start] == c {
    } else {
      FindShift(s, c, pos, start + 1);
    }
  }

  lemma LinesStep(s: string)
    ensures Lines(s) == if Find(s, '\n', 0) >= |s| then [s]
                        else [s[..Find(s, '\n', 0)]] + Lines(s[Find(s, '\n', 0) + 1..])
  {
    hide Find;
  }

  lemma PieceOf(s: string, from: nat, to: nat)
    requires from <= to < |s|
    ensures s[from..][..to - from] == s[from..to] && s[from..][to - from + 1..] == s[to + 1..]
  {
  }

  /** `getline` from position `pos`. */
  lemma LinesTurn(content: string, pos: nat)
    requires pos <= |content|
    ensures var end := Find(content, '\n', pos);
            Lines(content[pos..]) == if end < |content| then [content[pos..end]] + Lines(content[end + 1..])
                                     else [content[pos..]]
  {
    hide Find, Lines;
    FindShift(content, '\n', pos, pos);
    var end := Find(content, '\n', pos);
    LinesStep(content[pos..]);
    if end < |content| {
      PieceOf(content, pos, end);
    }
  }
}
