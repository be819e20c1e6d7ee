/** String lists in INI documents (libs/job_io/job_ini.h): the printer, the line lexer and the list
    parser between them. */
module IniList {
  datatype Option<T> = None | Some(value: T)

  /** One string-list member of a document, with the group it stands in ("" outside every group). */
  datatype Item = Item(group: string, key: string, values: seq<string>)

  datatype Token = Empty | Comment | Group | Entry

  // ----- printing (lines 114-137, 694-768)

  function EscapedChar(c: char): string {
    match c
    case ' ' => ['\\', 's']
    case '\n' => ['\\', 'n']
    case '\t' => ['\\', 't']
    case '\r' => ['\\', 'r']
    case '\\' => ['\\', '\\']
    case ';' => ['\\', ';']
    case _ => [c]
  }

  function Escaped(value: string): string {
    if value == "" then "" else EscapedChar(value[0]) + Escaped(value[1..])
  }

  function PrintValues(values: seq<string>): string {
    if values == [] then "" else Escaped(values[0]) + ";" + PrintValues(values[1..])
  }

  function PrintEntry(key: string, values: seq<string>): string {
    key + "=" + PrintValues(values) + "\n"
  }

  function PrintEntries(items: seq<Item>): string {
    if items == [] then "" else PrintEntry(items[0].key, items[0].values) + PrintEntries(items[1..])
  }

  function GroupHeader(group: string): string {
    "[" + group + "]"
  }

  /** A document of one object: its group header, if it has a group, then its members. */
  function Print(group: string, items: seq<Item>): string {
    if group == "" then PrintEntries(items) else GroupHeader(group) + "\n" + PrintEntries(items)
  }

  // ----- lexing (lines 297-389)

  predicate Blank(c: char) {
    c == ' ' || c == '\t'
  }

  function TrimFront(s: string): string {
    if s != "" && Blank(s[0]) then TrimFront(s[1..]) else s
  }

  function TrimBack(s: string): string {
    if s != "" && Blank(s[|s| - 1]) then TrimBack(s[..|s| - 1]) else s
  }

  function Trim(s: string): string {
    TrimBack(TrimFront(s))
  }

  /** The first position of c, or the length. */
  function Find(s: string, c: char): (k: nat)
    ensures k <= |s| && (k < |s| ==> s[k] == c) && forall i :: 0 <= i < k ==> s[i] != c
  {
    if s == "" then 0 else if s[0] == c then 0 else 1 + Find(s[1..], c)
  }

  function StripReturn(line: string): string {
    if line != "" && line[|line| - 1] == '\r' then line[..|line| - 1] else line
  }

  function FirstLine(source: string): string {
    StripReturn(source[..Find(source, '\n')])
  }

  function AfterLine(source: string): string {
    var k := Find(source, '\n');
    if k == |source| then "" else source[k + 1..]
  }

  function Classify(line: string): Token {
    if line == "" then Empty
    else match line[0]
      case '#' => Comment
      case ';' => Comment
      case '[' => Group
      case _ => Entry
  }

  predicate GoodGroup(group: string) {
    group != "" && Trimmed(group) && '[' !in group && ']' !in group && '\n' !in group
  }

  /** What stands between the brackets of a group line, if it is well formed. */
  function GroupOf(line: string): Option<string> {
    if |line| < 3 || line[0] != '[' || line[|line| - 1] != ']' then None
    else
      var group := Trim(line[1..|line| - 1]);
      if group == "" || '[' in group || ']' in group then None else Some(group)
  }

  function EntryOf(line: string): Option<(string, string)> {
    var k := Find(line, '=');
    if k == |line| then None
    else
      var key := Trim(line[..k]);
      if key == "" then None else Some((key, Trim(line[k + 1..])))
  }

  // ----- parsing one value (lines 558-631)

  datatype Parser = Parser(items: seq<string>, current: string, escaped: bool, endedWithSeparator: bool)

  function Unescaped(c: char): string {
    match c
    case 's' => " "
    case 'n' => "\n"
    case 't' => "\t"
    case 'r' => "\r"
    case '\\' => "\\"
    case ';' => ";"
    case _ => ['\\', c]
  }

  function ParseChar(p: Parser, c: char): Parser {
    if p.escaped then Parser(p.items, p.current + Unescaped(c), false, false)
    else if c == '\\' then p.(escaped := true)
    else if c == ';' then Parser(p.items + [p.current], "", false, true)
    else p.(current := p.current + [c], endedWithSeparator := false)
  }

  function ParseAll(p: Parser, s: string): Parser
    decreases |s|
  {
    if s == "" then p else ParseAll(ParseChar(p, s[0]), s[1..])
  }

  function Finish(p: Parser): seq<string> {
    var last := if p.escaped then p.current + "\\" else p.current;
    if p.endedWithSeparator then p.items else p.items + [last]
  }

  const FRESH := Parser([], "", false, false)

  function Parse(value: string): seq<string> {
    Finish(ParseAll(FRESH, value))
  }

  // ----- reading a document (lines 140-184)

  function Cons(item: Item, more: Option<seq<Item>>): Option<seq<Item>> {
    if more.None? then None else Some([item] + more.value)
  }

  /** The string-list entries of a document in order, or None at the first malformed line. */
  function Read(group: string, source: string): Option<seq<Item>>
    decreases |source|
  {
    if source == "" then Some([])
    else
      var line, after := Trim(FirstLine(source)), AfterLine(source);
      match Classify(line)
      case Empty => Read(group, after)
      case Comment => Read(group, after)
      case Group => if GroupOf(line).None? then None else Read(GroupOf(line).value, after)
      case Entry =>
        if EntryOf(line).None? then None
        else
          var (key, value) := EntryOf(line).value;
          Cons(Item(group, key, Parse(value)), Read(group, after))
  }

  // ----- trimming

  predicate Trimmed(s: string) {
    s == "" || (!Blank(s[0]) && !Blank(s[|s| - 1]))
  }

  lemma {:induction false} TrimFrontFacts(s: string)
    ensures var r := TrimFront(s); |r| <= |s| && r == s[|s| - |r|..] && (r != "" ==> !Blank(r[0]))
    ensures s != "" && !Blank(s[0]) ==> TrimFront(s) == s
  {
    if s != "" && Blank(s[0]) { TrimFrontFacts(s[1..]); }
  }

  lemma {:induction false} TrimBackFacts(s: string)
    ensures TrimBack(s) <= s && (TrimBack(s) != "" ==> !Blank(TrimBack(s)[|TrimBack(s)| - 1]))
    ensures s != "" && !Blank(s[|s| - 1]) ==> TrimBack(s) == s
  {
    if s != "" && Blank(s[|s| - 1]) { TrimBackFacts(s[..|s| - 1]); }
  }

  /** Trimming gives a trimmed part of the string, and leaves a trimmed string alone. */
  lemma TrimFacts(s: string)
    ensures Trimmed(Trim(s)) && (forall c :: c in Trim(s) ==> c in s) && (Trimmed(s) ==> Trim(s) == s)
    ensures s != "" && !Blank(s[0]) ==> Trim(s) <= s
  {
    TrimFrontFacts(s);
    TrimBackFacts(TrimFront(s));
  }

  // ----- the list codec

  lemma {:induction false} ParseConcat(p: Parser, a: string, b: string)
    ensures ParseAll(p, a + b) == ParseAll(ParseAll(p, a), b)
    decreases |a|
  {
    if a == "" {
      assert a + b == b;
    } else {
      assert (a + b)[1..] == a[1..] + b;
      ParseConcat(ParseChar(p, a[0]), a[1..], b);
    }
  }

  lemma {:induction false} ParseOne(p: Parser, c: char)
    ensures ParseAll(p, [c]) == ParseChar(p, c)
  {
    assert [c][1..] == "";
  }

  /** Every character's escape reads back as that character. */
  lemma {:induction false} ParseEscapedChar(p: Parser, c: char)
    requires !p.escaped
    ensures ParseAll(p, EscapedChar(c)) == Parser(p.items, p.current + [c], false, false)
  {
    var e := EscapedChar(c);
    if |e| == 1 {
      ParseOne(p, c);
    } else {
      assert e == [e[0]] + [e[1]];
      ParseConcat(p, [e[0]], [e[1]]);
      ParseOne(p, e[0]);
      ParseOne(ParseChar(p, e[0]), e[1]);
    }
  }

  lemma {:induction false} ParseEscaped(p: Parser, value: string)
    requires !p.escaped
    ensures ParseAll(p, Escaped(value)) ==
            Parser(p.items, p.current + value, false, value == "" && p.endedWithSeparator)
    decreases |value|
  {
    if value == "" {
      assert p.current + value == p.current;
    } else {
      var c, rest := value[0], value[1..];
      var q := Parser(p.items, p.current + [c], false, false);
      ParseConcat(p, EscapedChar(c), Escaped(rest));
      ParseEscapedChar(p, c);
      ParseEscaped(q, rest);
      assert p.current + [c] + rest == p.current + value;
    }
  }

  lemma {:induction false} ParseItem(p: Parser, value: string)
    requires !p.escaped && p.current == ""
    ensures ParseAll(p, Escaped(value) + ";") == Parser(p.items + [value], "", false, true)
  {
    var q := ParseAll(p, Escaped(value));
    ParseEscaped(p, value);
    assert p.current + value == value;
    ParseConcat(p, Escaped(value), ";");
    ParseOne(q, ';');
  }

  lemma {:induction false} ParsePrinted(p: Parser, values: seq<string>)
    requires !p.escaped && p.current == ""
    ensures ParseAll(p, PrintValues(values)) ==
            Parser(p.items + values, "", false, values != [] || p.endedWithSeparator)
    decreases |values|
  {
    if values == [] {
      assert p.items + values == p.items;
    } else {
      var v, rest := values[0], values[1..];
      ParseConcat(p, Escaped(v) + ";", PrintValues(rest));
      ParseItem(p, v);
      ParsePrinted(Parser(p.items + [v], "", false, true), rest);
      assert p.items + [v] + rest == p.items + values;
    }
  }

  /** What a printed list reads back as: an empty list prints nothing, which reads as one empty string. */
  function Normal(values: seq<string>): seq<string> {
    if values == [] then [""] else values
  }

  lemma ListReadsBack(values: seq<string>)
    ensures Parse(PrintValues(values)) == Normal(values)
  {
    ParsePrinted(FRESH, values);
  }

  lemma {:induction false} SeparatorNeedsItem(p: Parser, s: string)
    requires p.endedWithSeparator ==> p.items != []
    ensures var q := ParseAll(p, s); q.endedWithSeparator ==> q.items != []
    decreases |s|
  {
    if s != "" { SeparatorNeedsItem(ParseChar(p, s[0]), s[1..]); }
  }

  lemma ParseNeverEmpty(value: string)
    ensures Parse(value) != []
  {
    SeparatorNeedsItem(FRESH, value);
  }

  /** A list survives printing and parsing exactly when it is not empty. */
  lemma ListRoundTrip(values: seq<string>)
    ensures Parse(PrintValues(values)) == values <==> values != []
  {
    ListReadsBack(values);
  }

  /** Whatever was written in the file, printing what was read and reading again changes nothing. */
  lemma ReprintStable(value: string)
    ensures Parse(PrintValues(Parse(value))) == Parse(value)
  {
    ParseNeverEmpty(value);
    ListReadsBack(Parse(value));
  }

  // ----- one line

  /** A printed value has no line end and nothing to trim. */
  predicate Solid(s: string) {
    forall i :: 0 <= i < |s| ==> !Blank(s[i]) && s[i] != '\n' && s[i] != '\r'
  }

  lemma {:induction false} EscapedSolid(value: string)
    ensures Solid(Escaped(value))
  {
    if value != "" { EscapedSolid(value[1..]); }
  }

  lemma {:induction false} PrintedSolid(values: seq<string>)
    ensures Solid(PrintValues(values))
  {
    if values != [] {
      EscapedSolid(values[0]);
      PrintedSolid(values[1..]);
    }
  }

  /** The keys an entry line can carry. */
  predicate GoodKey(key: string) {
    key != "" && Trimmed(key) && '=' !in key && '\n' !in key && key[0] != '#' && key[0] != ';' && key[0] != '['
  }

  lemma FindIs(s: string, c: char, k: nat)
    requires k < |s| && s[k] == c && c !in s[..k]
    ensures Find(s, c) == k
  {
    var front := s[..k];
    assert forall i :: 0 <= i < k ==> front[i] in front && front[i] == s[i];
  }

  lemma FirstLineOf(line: string, after: string)
    requires '\n' !in line
    ensures FirstLine(line + "\n" + after) == StripReturn(line) && AfterLine(line + "\n" + after) == after
  {
    var all := line + "\n" + after;
    assert all[|line|] == '\n' && all[..|line|] == line;
    FindIs(all, '\n', |line|);
    assert all[..|line|] == line && all[|line| + 1..] == after;
  }

  lemma EntryLine(key: string, value: string)
    requires GoodKey(key) && Solid(value)
    ensures var line := key + "=" + value;
            '\n' !in line && StripReturn(line) == line && Trim(line) == line && Classify(line) == Entry &&
            EntryOf(line) == Some((key, value))
  {
    var line := key + "=" + value;
    var k := |key|;
    assert line[k] == '=' && line[..k] == key && line[k + 1..] == value;
    assert line[|line| - 1] == if value == "" then '=' else value[|value| - 1];
    FindIs(line, '=', k);
    TrimFacts(line);
    TrimFacts(key);
    TrimFacts(value);
  }

  // ----- documents

  lemma {:induction false} ReadEntry(group: string, item: Item, after: string)
    requires GoodKey(item.key)
    ensures Read(group, PrintEntry(item.key, item.values) + after) ==
            Cons(Item(group, item.key, Normal(item.values)), Read(group, after))
  {
    var value := PrintValues(item.values);
    var line := item.key + "=" + value;
    PrintedSolid(item.values);
    EntryLine(item.key, value);
    FirstLineOf(line, after);
    ListReadsBack(item.values);
    assert PrintEntry(item.key, item.values) + after == line + "\n" + after;
  }

  function Normalized(group: string, items: seq<Item>): seq<Item> {
    if items == [] then []
    else [Item(group, items[0].key, Normal(items[0].values))] + Normalized(group, items[1..])
  }

  lemma {:induction false} ReadEntries(group: string, items: seq<Item>)
    requires forall i: nat :: i < |items| ==> GoodKey(items[i].key)
    ensures Read(group, PrintEntries(items)) == Some(Normalized(group, items))
  {
    if items != [] {
      ReadEntry(group, items[0], PrintEntries(items[1..]));
      ReadEntries(group, items[1..]);
    }
  }

  lemma GroupLine(group: string)
    requires GoodGroup(group)
    ensures var line := GroupHeader(group);
            '\n' !in line && StripReturn(line) == line && Trim(line) == line && Classify(line) == Group &&
            GroupOf(line) == Some(group)
  {
    var line := GroupHeader(group);
    assert line[0] == '[' && line[|line| - 1] == ']' && line[1..|line| - 1] == group;
    TrimFacts(line);
    TrimFacts(group);
  }

  lemma {:induction false} ReadGroup(before: string, header: string, group: string, after: string)
    requires GoodGroup(group) && header == GroupHeader(group)
    ensures Read(before, header + "\n" + after) == Read(group, after)
  {
    GroupLine(group);
    FirstLineOf(header, after);
  }

  /** A printed document reads back entry by entry, in order, each under the document's group. */
  lemma {:induction false} DocumentReadsBack(group: string, items: seq<Item>)
    requires (group == "" || GoodGroup(group)) && forall i: nat :: i < |items| ==> GoodKey(items[i].key)
    ensures Read("", Print(group, items)) == Some(Normalized(group, items))
  {
    ReadEntries(group, items);
    if group != "" { ReadGroup("", GroupHeader(group), group, PrintEntries(items)); }
  }

  /** What the reader can deliver. */
  predicate Readable(item: Item) {
    (item.group == "" || GoodGroup(item.group)) && GoodKey(item.key) && item.values != []
  }

  lemma FirstLineHasNoNewline(source: string)
    ensures '\n' !in Trim(FirstLine(source))
  {
    TrimFacts(FirstLine(source));
    var k := Find(source, '\n');
    assert '\n' !in source[..k];
  }

  lemma EntryKeyGood(line: string)
    requires Trimmed(line) && '\n' !in line && Classify(line) == Entry && EntryOf(line).Some?
    ensures GoodKey(EntryOf(line).value.0)
  {
    var k := Find(line, '=');
    var front := line[..k];
    TrimFacts(front);
    assert '=' !in front;
    assert front != "";
    assert front[0] == line[0];
  }

  lemma GroupOfGood(line: string)
    requires '\n' !in line && GroupOf(line).Some?
    ensures GoodGroup(GroupOf(line).value)
  {
    TrimFacts(line[1..|line| - 1]);
  }

  lemma {:induction false} EntryReadable(group: string, line: string)
    requires Trimmed(line) && '\n' !in line && Classify(line) == Entry && (group == "" || GoodGroup(group))
    ensures EntryOf(line).Some? ==> Readable(Item(group, EntryOf(line).value.0, Parse(EntryOf(line).value.1)))
  {
    if EntryOf(line).Some? {
      EntryKeyGood(line);
      ParseNeverEmpty(EntryOf(line).value.1);
    }
  }

  ghost predicate AllReadable(r: Option<seq<Item>>) {
    r.Some? ==> forall i: nat :: i < |r.value| ==> Readable(r.value[i])
  }

  lemma {:induction false} ConsReadable(item: Item, more: Option<seq<Item>>)
    requires Readable(item) && AllReadable(more)
    ensures AllReadable(Cons(item, more))
  {
  }

  lemma {:induction false} ReadAllReadable(group: string, source: string)
    requires group == "" || GoodGroup(group)
    ensures AllReadable(Read(group, source))
    decreases |source|
  {
    if source != "" {
      var line, after := Trim(FirstLine(source)), AfterLine(source);
      FirstLineHasNoNewline(source);
      TrimFacts(FirstLine(source));
      match Classify(line)
      case Empty => ReadAllReadable(group, after);
      case Comment => ReadAllReadable(group, after);
      case Group =>
        if GroupOf(line).Some? {
          GroupOfGood(line);
          ReadAllReadable(GroupOf(line).value, after);
        }
      case Entry =>
        if EntryOf(line).Some? {
          var (key, value) := EntryOf(line).value;
          EntryReadable(group, line);
          ReadAllReadable(group, after);
          ConsReadable(Item(group, key, Parse(value)), Read(group, after));
        }
    }
  }

  /** Every entry read has a well-formed key and group and a non-empty list, whatever the document. */
  lemma ReadGivesReadable(group: string, source: string, i: nat)
    requires (group == "" || GoodGroup(group)) && Read(group, source).Some? && i < |Read(group, source).value|
    ensures Readable(Read(group, source).value[i])
  {
    ReadAllReadable(group, source);
  }

  lemma {:induction false} NormalizedSame(group: string, items: seq<Item>)
    requires forall i: nat :: i < |items| ==> items[i].group == group && items[i].values != []
    ensures Normalized(group, items) == items
  {
    if items != [] { NormalizedSame(group, items[1..]); }
  }

  /** A non-empty document reads back as it was printed exactly when its group and every key are
      well formed and no list is empty. */
  lemma {:induction false} DocumentRoundTrip(group: string, items: seq<Item>)
    requires items != [] && forall i: nat :: i < |items| ==> items[i].group == group
    ensures Read("", Print(group, items)) == Some(items) <==> forall i: nat :: i < |items| ==> Readable(items[i])
  {
    if Read("", Print(group, items)) == Some(items) {
      forall i: nat | i < |items| ensures Readable(items[i]) {
        ReadGivesReadable("", Print(group, items), i);
      }
    }
    if forall i: nat :: i < |items| ==> Readable(items[i]) {
      assert Readable(items[0]);
      DocumentReadsBack(group, items);
      NormalizedSame(group, items);
    }
  }

  /** The round trip that fails: an empty list comes back as one empty string. */
  lemma EmptyListReadsAsOneString(key: string)
    requires GoodKey(key)
    ensures Read("", Print("", [Item("", key, [])])) == Some([Item("", key, [""])])
  {
    var items := [Item("", key, [])];
    DocumentReadsBack("", items);
    assert items[1..] == [] && Normalized("", items[1..]) == [];
    assert Normalized("", items) == [Item("", key, [""])];
  }

  // ----- hand-written lines

  /** Only spaces and tabs. */
  predicate Blanks(s: string) {
    forall i :: 0 <= i < |s| ==> s[i] == ' ' || s[i] == '\t'
  }

  lemma {:induction false} TrimFrontBlanks(b: string, s: string)
    requires Blanks(b)
    ensures TrimFront(b + s) == TrimFront(s)
  {
    if b == "" {
      assert b + s == s;
    } else {
      assert (b + s)[1..] == b[1..] + s;
      TrimFrontBlanks(b[1..], s);
    }
  }

  lemma {:induction false} TrimBackBlanks(s: string, b: string)
    requires Blanks(b)
    ensures TrimBack(s + b) == TrimBack(s)
  {
    if b == "" {
      assert s + b == s;
    } else {
      assert (s + b)[..|s + b| - 1] == s + b[..|b| - 1];
      TrimBackBlanks(s, b[..|b| - 1]);
    }
  }

  /** Blanks around a text are trimmed and nothing else is. */
  lemma {:induction false} TrimAround(b: string, s: string, c: string)
    requires Blanks(b) && Blanks(c) && Trimmed(s)
    ensures Trim(b + s + c) == s
  {
    assert b + s + c == b + (s + c);
    TrimFrontBlanks(b, s + c);
    if s == "" {
      assert s + c == c + "";
      TrimFrontBlanks(c, "");
    } else {
      TrimBackBlanks(s, c);
      TrimBackFacts(s);
    }
  }

  /** The line end does not matter: a carriage return before it is dropped. */
  lemma {:induction false} ReturnIgnored(group: string, line: string, rest: string)
    requires '\n' !in line && (line == "" || line[|line| - 1] != '\r')
    ensures Read(group, line + "\r" + "\n" + rest) == Read(group, line + "\n" + rest)
  {
    assert line + "\r" != "" && (line + "\r")[..|line + "\r"| - 1] == line;
    FirstLineOf(line + "\r", rest);
    FirstLineOf(line, rest);
  }

  /** Nor does a missing one after the last line. */
  lemma {:induction false} LastLineEndOptional(group: string, line: string)
    requires '\n' !in line && line != ""
    ensures Read(group, line) == Read(group, line + "\n")
  {
    assert line + "\n" == line + "\n" + "";
    FirstLineOf(line, "");
    assert Find(line, '\n') == |line| && line[..|line|] == line;
  }

  /** One line of text without line end, and with nothing to trim. */
  predicate PlainLine(line: string) {
    line != "" && Trimmed(line) && '\n' !in line && line[|line| - 1] != '\r'
  }

  /** The reader sees the text of a line, whatever blanks surround it. */
  lemma {:induction false} RawLine(b: string, line: string, c: string, rest: string)
    requires Blanks(b) && Blanks(c) && Trimmed(line) && '\n' !in line && (line == "" || line[|line| - 1] != '\r')
    ensures var source := b + line + c + "\n" + rest;
            source != "" && Trim(FirstLine(source)) == line && AfterLine(source) == rest
  {
    var raw := b + line + c;
    FirstLineOf(raw, rest);
    if raw != "" { assert raw[|raw| - 1] != '\r'; }
    TrimAround(b, line, c);
  }

  /** A line that is blank, or a comment after any blanks, is skipped. */
  lemma {:induction false} SkippedLine(group: string, b: string, line: string, c: string, rest: string)
    requires Blanks(b) && Blanks(c) && (line == "" || (PlainLine(line) && (line[0] == '#' || line[0] == ';')))
    ensures Read(group, b + line + c + "\n" + rest) == Read(group, rest)
  {
    RawLine(b, line, c, rest);
  }

  /** A line that is neither blank, comment nor group and has no '=', or nothing before it, is an error. */
  lemma {:induction false} MalformedEntry(group: string, b: string, line: string, c: string, rest: string)
    requires Blanks(b) && Blanks(c) && PlainLine(line) && line[0] != '#' && line[0] != ';' && line[0] != '['
    requires '=' !in line || line[0] == '='
    ensures Read(group, b + line + c + "\n" + rest) == None
  {
    RawLine(b, line, c, rest);
    if '=' in line { FindIs(line, '=', 0); }
  }

  /** An entry is read with any blanks before and after its key and its value. */
  lemma {:induction false} HandWrittenEntry(group: string, key: string, value: string, rest: string,
                                            a: string, b: string, c: string, d: string)
    requires Blanks(a) && Blanks(b) && Blanks(c) && Blanks(d)
    requires GoodKey(key) && Trimmed(value) && '\n' !in value && (value == "" || value[|value| - 1] != '\r')
    ensures Read(group, a + (key + b + "=" + c + value) + d + "\n" + rest) ==
            Cons(Item(group, key, Parse(value)), Read(group, rest))
  {
    if value == "" {
      var line := key + b + "=";
      assert a + (key + b + "=" + c + value) + d == a + line + (c + d);
      EntryText(key, b, "", "");
      assert key + b + "=" + "" + "" == line;
      RawLine(a, line, c + d, rest);
    } else {
      EntryText(key, b, c, value);
      RawLine(a, key + b + "=" + c + value, d, rest);
    }
  }

  lemma {:induction false} EntryText(key: string, b: string, c: string, value: string)
    requires Blanks(b) && Blanks(c) && GoodKey(key) && Trimmed(value) && '\n' !in value
    requires value == "" ==> c == ""
    requires value != "" ==> value[|value| - 1] != '\r'
    ensures var line := key + b + "=" + c + value;
            PlainLine(line) && Classify(line) == Entry && EntryOf(line) == Some((key, value))
  {
    var line := key + b + "=" + c + value;
    var k := |key + b|;
    SplitAtAssignment(key + b, c + value, line);
    assert line[k] == '=' && line[|line| - 1] == if value == "" then '=' else value[|value| - 1];
    TrimPadded(key, b, c, value);
  }

  lemma {:induction false} SplitAtAssignment(left: string, right: string, line: string)
    requires '=' !in left && line == left + "=" + right
    ensures Find(line, '=') == |left| && line[..|left|] == left && line[|left| + 1..] == right
  {
    assert line[..|left|] == left;
    FindIs(line, '=', |left|);
  }

  lemma {:induction false} TrimPadded(key: string, b: string, c: string, value: string)
    requires Blanks(b) && Blanks(c) && Trimmed(key) && Trimmed(value)
    ensures Trim(key + b) == key && Trim(c + value) == value
  {
    assert key + b == "" + key + b && c + value == c + value + "";
    TrimAround("", key, b);
    TrimAround(c, value, "");
  }

  /** A group line, with any blanks around the brackets and inside them. */
  lemma {:induction false} HandWrittenGroup(before: string, group: string, rest: string,
                                            a: string, b: string, c: string, d: string)
    requires Blanks(a) && Blanks(b) && Blanks(c) && Blanks(d) && GoodGroup(group)
    ensures Read(before, a + ("[" + (b + group + c) + "]") + d + "\n" + rest) == Read(group, rest)
  {
    var line := "[" + (b + group + c) + "]";
    assert line[0] == '[' && line[|line| - 1] == ']' && line[1..|line| - 1] == b + group + c;
    TrimAround(b, group, c);
    RawLine(a, line, d, rest);
  }

  /** A line that starts like a group but is not one is an error. */
  lemma {:induction false} MalformedGroup(before: string, a: string, line: string, d: string, rest: string)
    requires Blanks(a) && Blanks(d) && PlainLine(line) && line[0] == '['
    requires line[|line| - 1] != ']' || Blanks(line[1..|line| - 1]) || '[' in Trim(line[1..|line| - 1]) ||
             ']' in Trim(line[1..|line| - 1])
    ensures Read(before, a + line + d + "\n" + rest) == None
  {
    RawLine(a, line, d, rest);
    if |line| >= 3 && Blanks(line[1..|line| - 1]) {
      var inner := line[1..|line| - 1];
      assert inner == inner + "" + "";
      TrimAround(inner, "", "");
    }
  }

  /** An escape the printer does not use keeps its backslash, */
  lemma {:induction false} UnknownEscapeKept(p: Parser, c: char)
    requires !p.escaped && c != 's' && c != 'n' && c != 't' && c != 'r' && c != '\\' && c != ';'
    ensures ParseAll(p, ['\\', c]) == Parser(p.items, p.current + ['\\', c], false, false)
  {
    assert ['\\', c] == ['\\'] + [c];
    ParseConcat(p, ['\\'], [c]);
    ParseOne(p, '\\');
    ParseOne(ParseChar(p, '\\'), c);
  }

  /** a last item needs no separator behind it, */
  lemma {:induction false} LastSeparatorOptional(values: seq<string>, last: string)
    requires last != ""
    ensures Parse(PrintValues(values) + Escaped(last)) == values + [last]
  {
    ParseConcat(FRESH, PrintValues(values), Escaped(last));
    ParsePrinted(FRESH, values);
    ParseEscaped(ParseAll(FRESH, PrintValues(values)), last);
    assert [] + values == values && "" + last == last;
  }

  /** and a backslash at the very end stands for itself, except directly behind a separator, where the
      parser drops it. */
  lemma {:induction false} LastBackslash(values: seq<string>, last: string)
    ensures Parse(PrintValues(values) + (Escaped(last) + "\\")) ==
            if values != [] && last == "" then values else values + [last + "\\"]
  {
    var p := ParseAll(FRESH, PrintValues(values));
    ParseConcat(FRESH, PrintValues(values), Escaped(last) + "\\");
    ParsePrinted(FRESH, values);
    ParseConcat(p, Escaped(last), "\\");
    ParseEscaped(p, last);
    ParseOne(ParseAll(p, Escaped(last)), '\\');
    assert [] + values == values && "" + last == last;
  }

  // ----- the format, character by character

  lemma {:induction false} EscapeFormat(c: char, value: string)
    ensures Escaped("") == ""
    ensures Escaped([c] + value) ==
            (if c == ' ' then "\\s" else if c == '\n' then "\\n" else if c == '\t' then "\\t"
             else if c == '\r' then "\\r" else if c == '\\' then "\\\\" else if c == ';' then "\\;" else [c]) +
            Escaped(value)
  {
    assert ([c] + value)[1..] == value;
  }

  lemma {:induction false} EntryFormat(key: string, values: seq<string>, value: string)
    ensures PrintValues([]) == "" && PrintValues([value] + values) == Escaped(value) + ";" + PrintValues(values)
    ensures PrintEntry(key, values) == key + "=" + PrintValues(values) + "\n"
  {
    assert ([value] + values)[1..] == values;
  }

  lemma {:induction false} DocumentFormat(group: string, item: Item, items: seq<Item>)
    ensures Print("", items) == PrintEntries(items)
    ensures group != "" ==> Print(group, items) == "[" + group + "]" + "\n" + PrintEntries(items)
    ensures PrintEntries([]) == ""
    ensures PrintEntries([item] + items) == PrintEntry(item.key, item.values) + PrintEntries(items)
  {
    assert ([item] + items)[1..] == items;
  }

  // ----- the loops of the source

  /** `appendEscapedIniString` */
  method AppendEscaped(result: string, value: string) returns (r: string)
    ensures r == result + Escaped(value)
  {
    r := result;
    for i := 0 to |value|
      invariant r + Escaped(value[i..]) == result + Escaped(value)
    {
      r := r + EscapedChar(value[i]);
      assert value[i..][1..] == value[i + 1..];
    }
    assert value[|value|..] == "";
  }

  /** `serializeIniStringList` */
  method SerializeList(result: string, key: string, values: seq<string>) returns (r: string)
    ensures r == result + PrintEntry(key, values)
  {
    r := result + key + "=";
    ghost var start := r;
    for i := 0 to |values|
      invariant r + PrintValues(values[i..]) == start + PrintValues(values)
    {
      r := AppendEscaped(r, values[i]);
      r := r + ";";
      assert values[i..][1..] == values[i + 1..];
    }
    assert values[|values|..] == [];
    assert r == start + PrintValues(values);
    r := r + "\n";
    assert r == result + (key + "=" + PrintValues(values) + "\n");
  }

  /** `toIni` */
  method ToIni(group: string, items: seq<Item>) returns (text: string)
    ensures text == Print(group, items)
  {
    text := if group == "" then "" else GroupHeader(group) + "\n";
    ghost var start := text;
    for i := 0 to |items|
      invariant text + PrintEntries(items[i..]) == start + PrintEntries(items)
    {
      text := SerializeList(text, items[i].key, items[i].values);
      assert items[i..][1..] == items[i + 1..];
    }
    assert items[|items|..] == [];
    assert text == start + PrintEntries(items);
    assert group == "" ==> text == PrintEntries(items);
  }

  /** `trimView` */
  method TrimView(value: string) returns (r: string)
    ensures r == Trim(value)
  {
    r := value;
    while r != "" && Blank(r[0])
      invariant TrimFront(r) == TrimFront(value)
      decreases |r|
    {
      r := r[1..];
    }
    while r != "" && Blank(r[|r| - 1])
      invariant TrimBack(r) == Trim(value)
      decreases |r|
    {
      r := r[..|r| - 1];
    }
  }

  /** `nextLineView`: the line at the cursor, if there is one, and the cursor behind it */
  method NextLineView(source: string, position: nat) returns (found: bool, line: string, next: nat)
    ensures found <==> position < |source|
    ensures found ==> position < next <= |source| &&
                      line == FirstLine(source[position..]) && source[next..] == AfterLine(source[position..])
  {
    if position >= |source| { return false, "", position; }
    found := true;
    var rest := source[position..];
    var newline := Find(rest, '\n');
    if newline == |rest| {
      line := rest;
      next := |source|;
    } else {
      line := rest[..newline];
      next := position + newline + 1;
    }
    assert rest[..newline] == line;
    if line != "" && line[|line| - 1] == '\r' {
      line := line[..|line| - 1];
    }
  }

  /** `deserializeIniStringList` */
  method DeserializeList(value: string) returns (destination: seq<string>)
    ensures destination == Parse(value)
  {
    destination := [];
    var current, escaped, endedWithSeparator := "", false, false;
    for i := 0 to |value|
      invariant ParseAll(Parser(destination, current, escaped, endedWithSeparator), value[i..]) ==
                ParseAll(FRESH, value)
    {
      var c := value[i];
      assert value[i..][1..] == value[i + 1..];
      if escaped {
        current := current + Unescaped(c);
        escaped, endedWithSeparator := false, false;
      } else if c == '\\' {
        escaped := true;
      } else if c == ';' {
        destination := destination + [current];
        current, endedWithSeparator := "", true;
      } else {
        current := current + [c];
        endedWithSeparator := false;
      }
    }
    assert value[|value|..] == "";
    if escaped { current := current + "\\"; }
    if !endedWithSeparator { destination := destination + [current]; }
  }

  /** The items already read, before what is still to come. */
  ghost function Prefixed(items: seq<Item>, more: Option<seq<Item>>): Option<seq<Item>> {
    if more.None? then None else Some(items + more.value)
  }

  lemma PrefixedEnds(items: seq<Item>, more: Option<seq<Item>>)
    ensures Prefixed([], more) == more && Prefixed(items, Some([])) == Some(items)
  {
    if more.Some? { assert [] + more.value == more.value; }
    assert items + [] == items;
  }

  lemma PrefixedCons(items: seq<Item>, item: Item, more: Option<seq<Item>>)
    ensures Prefixed(items, Cons(item, more)) == Prefixed(items + [item], more)
  {
    if more.Some? { assert items + ([item] + more.value) == items + [item] + more.value; }
  }

  /** `fromIni`, delivering the entries instead of assigning them to members */
  method FromIni(source: string) returns (result: Option<seq<Item>>)
    ensures result == Read("", source)
  {
    var position, group, items := 0, "", [];
    assert source[0..] == source;
    PrefixedEnds(items, Read("", source));
    while true
      invariant position <= |source|
      invariant Read("", source) == Prefixed(items, Read(group, source[position..]))
      decreases |source| - position
    {
      var found, line, next := NextLineView(source, position);
      if !found { break; }
      line := TrimView(line);
      var token := Classify(line);
      if token == Group {
        var g := GroupOf(line);
        if g.None? { return None; }
        group := g.value;
      } else if token == Entry {
        var e := EntryOf(line);
        if e.None? { return None; }
        var values := DeserializeList(e.value.1);
        PrefixedCons(items, Item(group, e.value.0, values), Read(group, source[next..]));
        items := items + [Item(group, e.value.0, values)];
      }
      position := next;
    }
    PrefixedEnds(items, None);
    return Some(items);
  }
}
