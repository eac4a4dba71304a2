/**
  Writing a configuration and reading it back: russ_conf_writefd and
  russ_conf_readfd in conf.c. Texts hold no NUL.
 */
module ConfFile {
  import opened Bytes
  import opened Conf

  const LINE_MAX := 4096
  const DEFAULT := "DEFAULT"

  // ----- lines -----

  function SkipSpace(s: string): string {
    if s != "" && IsSpace(s[0]) then SkipSpace(s[1..]) else s
  }

  // The first character stays.
  function TrimRight(s: string): string {
    if |s| > 1 && IsSpace(s[|s| - 1]) then TrimRight(s[..|s| - 1]) else s
  }

  // The position of the first a or b, or the length.
  function IndexOf(s: string, a: char, b: char): (k: nat)
    ensures k <= |s|
  {
    if s == "" || s[0] == a || s[0] == b then 0 else 1 + IndexOf(s[1..], a, b)
  }

  datatype Parsed = Blank | Header(name: string) | Setting(option: string, value: string) | Bad

  // A line that starts with white space is not trimmed at its end.
  function Body(line: string): string {
    var p0 := SkipSpace(line);
    if |p0| == |line| then TrimRight(line) else p0
  }

  function ParsedLine(line: string): Parsed {
    ParsedBody(Body(line))
  }

  function ParsedBody(body: string): Parsed {
    if body == "" || body[0] == '#' then Blank
    else if body[0] == '[' then
      var rest := body[1..];
      var k := IndexOf(rest, ']', ']');
      if k == |rest| || k + 1 < |rest| then Bad else Header(rest[..k])
    else
      var k := IndexOf(body, ':', '=');
      if k == |body| then Bad else Setting(body[..k], SkipSpace(body[k + 1..]))
  }

  // What fgets takes with that much room: up to the newline.
  function LineLen(text: string, room: nat): (k: nat)
    ensures k <= |text| && (text != "" && room > 0 ==> k > 0)
  {
    if text == "" || room == 0 then 0
    else if text[0] == '\n' then 1
    else 1 + LineLen(text[1..], room - 1)
  }

  // ----- reading, on the map of maps -----

  // What a line does to the map, and the section that is current after it.
  function Loaded(m: Contents, cur: string, parsed: Parsed): (r: (Contents, string))
    requires cur in m
    ensures r.1 in r.0
  {
    match parsed
    case Header(name) => (m[name := Get(m, name)], name)
    case Setting(option, value) => (m[cur := m[cur][option := value]], cur)
    case _ => (m, cur)
  }

  function ReadText(m: Contents, cur: string, text: string): (bool, Contents)
    requires cur in m
    decreases |text|
  {
    if text == "" then (true, m)
    else
      var k := LineLen(text, LINE_MAX - 1);
      var parsed := ParsedLine(text[..k]);
      if parsed.Bad? then (false, m)
      else ReadText(Loaded(m, cur, parsed).0, Loaded(m, cur, parsed).1, text[k..])
  }

  lemma ReadLine(m: Contents, cur: string, text: string, line: string, rest: string)
    requires cur in m && text != "" && line == text[..LineLen(text, LINE_MAX - 1)] && rest == text[|line|..]
    ensures var parsed := ParsedLine(line);
      ReadText(m, cur, text) ==
        if parsed.Bad? then (false, m) else ReadText(Loaded(m, cur, parsed).0, Loaded(m, cur, parsed).1, rest)
  {
  }

  lemma ReadNothing(m: Contents, cur: string)
    requires cur in m
    ensures ReadText(m, cur, "") == (true, m)
  {
  }

  // ----- writing -----

  function PrintedItem(item: Item): string {
    item.name + "=" + item.value + "\n"
  }

  function PrintedItems(items: seq<Item>): string {
    if items == [] then "" else PrintedItems(items[..|items| - 1]) + PrintedItem(items[|items| - 1])
  }

  function PrintedHeader(name: string): string {
    "[" + name + "]\n"
  }

  function Printed(secs: seq<Section>): string {
    if secs == [] then ""
    else
      var s := secs[|secs| - 1];
      Printed(secs[..|secs| - 1]) + (PrintedHeader(s.name) + (PrintedItems(s.value) + "\n"))
  }

  // ----- what survives -----

  // With its brackets the name fits the buffer; the newline after it need not.
  predicate NameOk(name: string) {
    '\n' !in name && ']' !in name && |name| + 2 < LINE_MAX
  }

  predicate OptionOk(option: string) {
    && '\n' !in option && ':' !in option && '=' !in option
    && (option != "" ==> !IsSpace(option[0]) && option[0] != '#' && option[0] != '[')
  }

  predicate ValueOk(value: string) {
    '\n' !in value && (value != "" ==> !IsSpace(value[0]) && !IsSpace(value[|value| - 1]))
  }

  predicate ItemOk(item: Item) {
    OptionOk(item.name) && ValueOk(item.value) && |item.name| + |item.value| + 1 < LINE_MAX
  }

  predicate WellFormed(secs: seq<Section>) {
    forall i :: 0 <= i < |secs| ==>
      NameOk(secs[i].name) && forall j :: 0 <= j < |secs[i].value| ==> ItemOk(secs[i].value[j])
  }

  lemma {:induction false} IndexFound(s: string, a: char, b: char, rest: string)
    requires a !in s && b !in s && rest != "" && (rest[0] == a || rest[0] == b)
    ensures IndexOf(s + rest, a, b) == |s|
  {
    if s == "" {
      assert s + rest == rest;
    } else {
      assert (s + rest)[1..] == s[1..] + rest;
      IndexFound(s[1..], a, b, rest);
    }
  }

  lemma {:induction false} LineFound(body: string, rest: string, room: nat)
    requires '\n' !in body && |body| < room
    ensures LineLen(body + "\n" + rest, room) == |body| + 1
  {
    var text := body + "\n" + rest;
    if body == "" {
      assert text[0] == '\n';
    } else {
      assert text[1..] == body[1..] + "\n" + rest;
      LineFound(body[1..], rest, room - 1);
    }
  }

  // A line of text, newline included, that neither starts nor ends with white space.
  lemma LineTrimmed(body: string)
    requires body != "" && !IsSpace(body[0]) && !IsSpace(body[|body| - 1])
    ensures ParsedLine(body + "\n") == ParsedBody(body)
  {
    var line := body + "\n";
    assert SkipSpace(line) == line;
    assert line[..|line| - 1] == body;
    assert TrimRight(line) == TrimRight(body) == body;
  }

  lemma HeaderParsed(name: string)
    requires NameOk(name)
    ensures ParsedLine(PrintedHeader(name)) == Header(name)
  {
    var body := "[" + name + "]";
    assert PrintedHeader(name) == body + "\n";
    LineTrimmed(body);
    var rest := body[1..];
    assert rest == name + "]";
    IndexFound(name, ']', ']', "]");
    assert rest[..|name|] == name;
  }

  lemma ItemParsed(item: Item)
    requires ItemOk(item)
    ensures ParsedLine(PrintedItem(item)) == Setting(item.name, item.value)
  {
    var body := item.name + "=" + item.value;
    assert PrintedItem(item) == body + "\n";
    BodyEnds(item.name, item.value);
    LineTrimmed(body);
    SettingParsed(item.name, item.value);
    ValueSkipped(item.value);
  }

  lemma SettingParsed(option: string, value: string)
    requires OptionOk(option)
    ensures ParsedBody(option + "=" + value) == Setting(option, SkipSpace(value))
  {
    var body, tail := option + "=" + value, "=" + value;
    assert body == option + tail;
    IndexFound(option, ':', '=', tail);
    assert body[..|option|] == option && body[|option| + 1..] == value;
  }

  // One printed line is read as one line.
  lemma LineRead(body: string, rest: string)
    requires '\n' !in body && |body| + 1 < LINE_MAX
    ensures var text := body + "\n" + rest;
      && text != "" && LineLen(text, LINE_MAX - 1) == |body| + 1
      && text[..|body| + 1] == body + "\n" && text[|body| + 1..] == rest
  {
    LineFound(body, rest, LINE_MAX - 1);
  }

  // A line that fills the buffer is taken without its newline.
  lemma {:induction false} LineFills(body: string, rest: string, room: nat)
    requires '\n' !in body && |body| == room
    ensures LineLen(body + "\n" + rest, room) == room
  {
    var text := body + "\n" + rest;
    if body != "" {
      assert text[0] == body[0] && text[1..] == body[1..] + "\n" + rest;
      LineFills(body[1..], rest, room - 1);
    }
  }

  lemma TrimmedOnce(body: string)
    requires body != "" && !IsSpace(body[0])
    ensures Body(body) == Body(body + "\n") == TrimRight(body)
  {
    var line := body + "\n";
    assert line[..|line| - 1] == body;
  }

  lemma ReadBlank(m: Contents, cur: string, rest: string)
    requires cur in m
    ensures ReadText(m, cur, "\n" + rest) == ReadText(m, cur, rest)
  {
    LineRead("", rest);
    assert "" + "\n" + rest == "\n" + rest;
    assert SkipSpace("\n") == SkipSpace("") == "";
    assert ParsedLine("\n") == Blank;
  }

  // A line that does not start with white space and fits the buffer, its newline included or not.
  lemma ReadBody(m: Contents, cur: string, body: string, rest: string)
    requires cur in m && '\n' !in body && |body| < LINE_MAX && body != "" && !IsSpace(body[0])
    ensures var parsed := ParsedBody(TrimRight(body));
      ReadText(m, cur, body + "\n" + rest)
        == if parsed.Bad? then (false, m) else ReadText(Loaded(m, cur, parsed).0, Loaded(m, cur, parsed).1, rest)
  {
    hide ReadText, ParsedBody, TrimRight, Loaded, Body, LineLen;
    var text := body + "\n" + rest;
    TrimmedOnce(body);
    if |body| + 1 < LINE_MAX {
      LineFound(body, rest, LINE_MAX - 1);
      assert text[..|body| + 1] == body + "\n" && text[|body| + 1..] == rest;
      ReadLine(m, cur, text, body + "\n", rest);
    } else {
      LineFills(body, rest, LINE_MAX - 1);
      assert text[..|body|] == body && text[|body|..] == "\n" + rest;
      ReadLine(m, cur, text, body, "\n" + rest);
      var parsed := ParsedBody(TrimRight(body));
      if !parsed.Bad? {
        ReadBlank(Loaded(m, cur, parsed).0, Loaded(m, cur, parsed).1, rest);
      }
    }
  }

  lemma ReadHeader(m: Contents, cur: string, name: string, rest: string)
    requires cur in m && NameOk(name)
    ensures ReadText(m, cur, PrintedHeader(name) + rest) == ReadText(m[name := Get(m, name)], name, rest)
  {
    hide ReadText;
    var body := "[" + name + "]";
    HeaderParsed(name);
    LineTrimmed(body);
    assert TrimRight(body) == body;
    assert PrintedHeader(name) == body + "\n";
    ReadBody(m, cur, body, rest);
  }

  // ----- what can be read at all -----

  // The value without white space at its end.
  function Trimmed(s: string): string {
    if s != "" && IsSpace(s[|s| - 1]) then Trimmed(s[..|s| - 1]) else s
  }

  // A value as some line could give it: it may end in white space, and then in a newline.
  predicate Readable(value: string) {
    && (value != "" ==> !IsSpace(value[0]))
    && (forall i :: 0 <= i < |value| && value[i] == '\n' ==> i == |value| - 1)
  }

  predicate ItemReadable(item: Item) {
    OptionOk(item.name) && Readable(item.value) && |item.name| + |item.value| + 1 < LINE_MAX
  }

  predicate AllReadable(secs: seq<Section>) {
    forall i :: 0 <= i < |secs| ==>
      NameOk(secs[i].name) && forall j :: 0 <= j < |secs[i].value| ==> ItemReadable(secs[i].value[j])
  }

  lemma {:induction false} TrimmedIsPrefix(s: string)
    ensures |Trimmed(s)| <= |s| && s[..|Trimmed(s)|] == Trimmed(s)
    ensures Trimmed(s) != "" ==> !IsSpace(Trimmed(s)[|Trimmed(s)| - 1])
    ensures Trimmed(s) == s <==> s == "" || !IsSpace(s[|s| - 1])
  {
    if s != "" && IsSpace(s[|s| - 1]) {
      var init := s[..|s| - 1];
      TrimmedIsPrefix(init);
      assert s[..|Trimmed(init)|] == init[..|Trimmed(init)|];
    } else {
      assert s[..|s|] == s;
    }
  }

  lemma {:induction false} TrimsTail(a: string, v: string)
    requires a != "" && !IsSpace(a[|a| - 1])
    ensures TrimRight(a + v) == a + Trimmed(v)
    decreases |v|
  {
    var s := a + v;
    if v == "" {
      assert s == a;
    } else if IsSpace(v[|v| - 1]) {
      assert s[..|s| - 1] == a + v[..|v| - 1];
      TrimsTail(a, v[..|v| - 1]);
    }
  }

  // What an item's line sets: the value without white space at its end.
  lemma ItemBody(option: string, value: string)
    requires OptionOk(option) && Readable(value)
    ensures ParsedBody(TrimRight(option + "=" + value)) == Setting(option, Trimmed(value))
  {
    hide ParsedBody, TrimRight;
    var a := option + "=";
    assert option + "=" + value == a + value;
    TrimsTail(a, value);
    SettingParsed(option, Trimmed(value));
    TrimmedIsPrefix(value);
    assert SkipSpace(Trimmed(value)) == Trimmed(value);
  }

  lemma ReadItem(m: Contents, cur: string, item: Item, rest: string)
    requires cur in m && ItemReadable(item)
    ensures ReadText(m, cur, PrintedItem(item) + rest)
      == ReadText(m[cur := m[cur][item.name := Trimmed(item.value)]], cur, rest)
  {
    hide ReadText, ParsedBody, TrimRight, Trimmed;
    var value := item.value;
    if value != "" && value[|value| - 1] == '\n' {
      var stem := value[..|value| - 1];
      assert value == stem + "\n";
      ReadStem(m, cur, item.name, stem, "\n" + rest);
      assert PrintedItem(item) + rest == item.name + "=" + stem + "\n" + ("\n" + rest);
      TrimmedNewline(stem);
      ReadBlank(m[cur := m[cur][item.name := Trimmed(stem)]], cur, rest);
    } else {
      ReadStem(m, cur, item.name, value, rest);
    }
  }

  lemma TrimmedNewline(stem: string)
    ensures Trimmed(stem + "\n") == Trimmed(stem)
  {
    assert (stem + "\n")[..|stem|] == stem;
  }

  // One line.
  lemma ReadStem(m: Contents, cur: string, option: string, value: string, rest: string)
    requires cur in m && OptionOk(option) && Readable(value) && '\n' !in value && |option| + |value| + 1 < LINE_MAX
    ensures ReadText(m, cur, option + "=" + value + "\n" + rest)
      == ReadText(m[cur := m[cur][option := Trimmed(value)]], cur, rest)
  {
    hide ReadText, ParsedBody, TrimRight, Trimmed;
    var body := option + "=" + value;
    assert body[0] == if option == "" then '=' else option[0];
    ItemBody(option, value);
    ReadBody(m, cur, body, rest);
  }

  function TrimmedItems(items: seq<Item>): seq<Item> {
    seq(|items|, i requires 0 <= i < |items| => Named(items[i].name, Trimmed(items[i].value)))
  }

  function TrimmedSecs(secs: seq<Section>): seq<Section> {
    seq(|secs|, i requires 0 <= i < |secs| => Named(secs[i].name, TrimmedItems(secs[i].value)))
  }

  lemma Regroup(a: string, b: string, c: string)
    ensures (a + b) + c == a + (b + c)
  {
  }

  // One more item after those of `init`.
  lemma ItemAdded(m: Contents, cur: string, init: seq<Item>, items: seq<Item>)
    requires cur in m && items != [] && init == items[..|items| - 1]
    ensures var m1, last := m[cur := m[cur] + AsMap(init)], items[|items| - 1];
      m1[cur := m1[cur][last.name := last.value]] == m[cur := m[cur] + AsMap(items)]
  {
    var last := items[|items| - 1];
    assert m[cur] + AsMap(items) == (m[cur] + AsMap(init))[last.name := last.value];
  }

  lemma NoItems()
    ensures AsMap<string>([]) == map[]
  {
  }

  lemma {:induction false} ReadItems(m: Contents, cur: string, items: seq<Item>, rest: string)
    requires cur in m && forall j :: 0 <= j < |items| ==> ItemReadable(items[j])
    ensures ReadText(m, cur, PrintedItems(items) + rest)
      == ReadText(m[cur := m[cur] + AsMap(TrimmedItems(items))], cur, rest)
    decreases |items|
  {
    hide ReadText, PrintedItem, Trimmed, AsMap, ItemReadable;
    if items == [] {
      assert PrintedItems(items) + rest == rest;
      assert TrimmedItems(items) == [];
      NoItems();
      assert m[cur] + map[] == m[cur];
      assert m[cur := m[cur]] == m;
    } else {
      var init, last := items[..|items| - 1], items[|items| - 1];
      Regroup(PrintedItems(init), PrintedItem(last), rest);
      ReadItems(m, cur, init, PrintedItem(last) + rest);
      ReadItem(m[cur := m[cur] + AsMap(TrimmedItems(init))], cur, last, rest);
      assert TrimmedItems(items)[..|items| - 1] == TrimmedItems(init);
      ItemAdded(m, cur, TrimmedItems(init), TrimmedItems(items));
    }
  }

  lemma ReadSection(m: Contents, cur: string, s: Section, rest: string)
    requires cur in m && NameOk(s.name) && forall j :: 0 <= j < |s.value| ==> ItemReadable(s.value[j])
    ensures ReadText(m, cur, PrintedHeader(s.name) + (PrintedItems(s.value) + "\n") + rest)
      == ReadText(m[s.name := Get(m, s.name) + AsMap(TrimmedItems(s.value))], s.name, rest)
  {
    hide ReadText, PrintedItems, TrimmedItems;
    var items := PrintedItems(s.value);
    assert PrintedHeader(s.name) + (items + "\n") + rest == PrintedHeader(s.name) + (items + ("\n" + rest));
    ReadHeader(m, cur, s.name, items + ("\n" + rest));
    var m1 := m[s.name := Get(m, s.name)];
    ReadItems(m1, s.name, s.value, "\n" + rest);
    var m2 := m1[s.name := m1[s.name] + AsMap(TrimmedItems(s.value))];
    ReadBlank(m2, s.name, rest);
    assert m2 == m[s.name := Get(m, s.name) + AsMap(TrimmedItems(s.value))];
  }

  function LastName(secs: seq<Section>, cur: string): string {
    if secs == [] then cur else secs[|secs| - 1].name
  }

  lemma TrimmedKept(secs: seq<Section>)
    requires WellKept(secs)
    ensures WellKept(TrimmedSecs(secs))
  {
    forall i | 0 <= i < |secs| ensures Unique(TrimmedSecs(secs)[i].value) {
      assert Unique(secs[i].value);
    }
  }

  lemma NothingViewed()
    ensures View(TrimmedSecs([])) == map[]
  {
  }

  lemma {:induction false} ReadSections(m: Contents, cur: string, secs: seq<Section>, rest: string)
    requires cur in m && WellKept(secs) && AllReadable(secs)
    ensures LastName(secs, cur) in Merge(m, View(TrimmedSecs(secs)))
    ensures ReadText(m, cur, Printed(secs) + rest)
      == ReadText(Merge(m, View(TrimmedSecs(secs))), LastName(secs, cur), rest)
    decreases |secs|
  {
    hide ReadText, View, Trimmed, Merge, AsMap, PrintedItems;
    if secs == [] {
      assert Printed(secs) + rest == rest;
      NothingViewed();
      MergeNothing(m);
    } else {
      var init, s := secs[..|secs| - 1], secs[|secs| - 1];
      var text := PrintedHeader(s.name) + (PrintedItems(s.value) + "\n");
      Regroup(Printed(init), text, rest);
      ReadSections(m, cur, init, text + rest);
      TrimmedKept(secs);
      assert TrimmedSecs(secs)[..|secs| - 1] == TrimmedSecs(init);
      SectionAdded(m, TrimmedSecs(secs));
      ReadSection(Merge(m, View(TrimmedSecs(init))), LastName(init, cur), s, rest);
    }
  }

  // One more section after the others.
  lemma SectionAdded(m: Contents, secs: seq<Section>)
    requires secs != [] && WellKept(secs)
    ensures var init, s := secs[..|secs| - 1], secs[|secs| - 1];
      Merge(m, View(secs)) == Merge(m, View(init))[s.name := Get(Merge(m, View(init)), s.name) + AsMap(s.value)]
  {
    var init, s := secs[..|secs| - 1], secs[|secs| - 1];
    NotAmongFirst(secs, |init|);
    ViewLacks(init, s.name);
    ViewAppend(init, s);
    assert init + [s] == secs;
    MergeStep(m, View(init), s.name, AsMap(s.value));
  }

  lemma MergeDefault(v: Contents)
    ensures DEFAULT in v ==> Merge(map[DEFAULT := map[]], v) == v
    ensures DEFAULT !in v ==> Merge(map[DEFAULT := map[]], v) == v[DEFAULT := map[]]
  {
    var u := Merge(map[DEFAULT := map[]], v);
    forall name | name in v ensures u[name] == v[name] {
      assert map[] + v[name] == v[name];
    }
    if DEFAULT in v {
      assert u.Keys == v.Keys;
    } else {
      assert u.Keys == v.Keys + {DEFAULT};
    }
  }

  // ----- the round trip -----

  const EMPTY: Contents := map[DEFAULT := map[]]

  // The same sections, options and values, and a DEFAULT section.
  function WithDefault(v: Contents): Contents {
    if DEFAULT in v then v else v[DEFAULT := map[]]
  }

  predicate RoundTrips(secs: seq<Section>) {
    ReadText(EMPTY, DEFAULT, Printed(secs)) == (true, WithDefault(View(secs)))
  }

  // What is read back, as long as some line could give every value.
  lemma ReadPrinted(secs: seq<Section>)
    requires WellKept(secs) && AllReadable(secs)
    ensures ReadText(EMPTY, DEFAULT, Printed(secs)) == (true, WithDefault(View(TrimmedSecs(secs))))
  {
    hide ReadText, View, Trimmed;
    ReadSections(EMPTY, DEFAULT, secs, "");
    assert Printed(secs) + "" == Printed(secs);
    MergeDefault(View(TrimmedSecs(secs)));
    ReadNothing(Merge(EMPTY, View(TrimmedSecs(secs))), LastName(secs, DEFAULT));
  }

  // Every name, option and value in the map is one that some line could give.
  predicate Given(m: Contents) {
    && (forall name :: name in m ==> NameOk(name))
    && (forall name, option :: name in m && option in m[name] ==> ItemReadable(Named(option, m[name][option])))
  }

  lemma {:induction false} IndexBefore(s: string, a: char, b: char)
    ensures var k := IndexOf(s, a, b);
      a !in s[..k] && b !in s[..k] && (k < |s| ==> s[k] == a || s[k] == b)
  {
    if s != "" && s[0] != a && s[0] != b {
      IndexBefore(s[1..], a, b);
      var k := IndexOf(s[1..], a, b);
      assert s[..k + 1] == [s[0]] + s[1..][..k];
    }
  }

  // A line, with a newline at its end or none.
  predicate Line(s: string) {
    |s| < LINE_MAX && forall i :: 0 <= i < |s| && s[i] == '\n' ==> i == |s| - 1
  }

  lemma {:induction false} SkipsToText(s: string)
    ensures SkipSpace(s) != "" ==> !IsSpace(SkipSpace(s)[0])
    ensures |SkipSpace(s)| <= |s| && s[|s| - |SkipSpace(s)|..] == SkipSpace(s)
  {
    if s != "" && IsSpace(s[0]) {
      SkipsToText(s[1..]);
    }
  }

  lemma {:induction false} TrimRightPrefix(s: string)
    ensures |TrimRight(s)| <= |s| && s[..|TrimRight(s)|] == TrimRight(s)
    ensures |TrimRight(s)| > 1 ==> !IsSpace(TrimRight(s)[|TrimRight(s)| - 1])
    ensures s != "" ==> TrimRight(s) != ""
  {
    if |s| > 1 && IsSpace(s[|s| - 1]) {
      var init := s[..|s| - 1];
      TrimRightPrefix(init);
      assert s[..|TrimRight(init)|] == init[..|TrimRight(init)|];
    } else {
      assert s[..|s|] == s;
    }
  }

  lemma BodyOfLine(line: string)
    requires Line(line)
    ensures Line(Body(line)) && (Body(line) != "" ==> !IsSpace(Body(line)[0]))
  {
    SkipsToText(line);
    TrimRightPrefix(line);
    var p0 := SkipSpace(line);
    if |p0| == |line| {
      assert p0 == line;
      var t := TrimRight(line);
      assert forall i :: 0 <= i < |t| ==> t[i] == line[i];
      assert t != "" ==> t[0] == line[0];
    } else {
      assert forall i :: 0 <= i < |p0| ==> p0[i] == line[|line| - |p0| + i];
    }
  }

  lemma HeaderOfBody(body: string)
    requires Line(body) && ParsedBody(body).Header?
    ensures NameOk(ParsedBody(body).name)
  {
    var rest := body[1..];
    IndexBefore(rest, ']', ']');
    var name := rest[..IndexOf(rest, ']', ']')];
    assert forall i :: 0 <= i < |name| ==> name[i] == body[i + 1];
  }

  lemma SettingOfBody(body: string)
    requires Line(body) && (body != "" ==> !IsSpace(body[0])) && ParsedBody(body).Setting?
    ensures ItemReadable(Named(ParsedBody(body).option, ParsedBody(body).value))
  {
    var k := IndexOf(body, ':', '=');
    IndexBefore(body, ':', '=');
    var option, tail := body[..k], body[k + 1..];
    var value := SkipSpace(tail);
    SkipsToText(tail);
    assert forall i :: 0 <= i < |option| ==> option[i] == body[i];
    assert forall i :: 0 <= i < |value| ==> value[i] == body[|body| - |value| + i];
  }

  lemma ParsedGives(m: Contents, cur: string, line: string)
    requires cur in m && Given(m) && Line(line) && !ParsedLine(line).Bad?
    ensures Given(Loaded(m, cur, ParsedLine(line)).0)
  {
    hide ParsedBody, Body;
    BodyOfLine(line);
    match ParsedLine(line)
    case Blank =>
    case Header(name) => HeaderOfBody(Body(line));
    case Setting(option, value) => SettingOfBody(Body(line));
  }

  lemma {:induction false} LineShape(text: string, room: nat)
    ensures LineLen(text, room) <= room
    ensures forall i :: 0 <= i < LineLen(text, room) && text[i] == '\n' ==> i == LineLen(text, room) - 1
  {
    if text != "" && room > 0 && text[0] != '\n' {
      LineShape(text[1..], room - 1);
      assert forall i :: 0 < i < |text| ==> text[i] == text[1..][i - 1];
    }
  }

  lemma {:induction false} ReadGives(m: Contents, cur: string, text: string)
    requires cur in m && Given(m)
    ensures Given(ReadText(m, cur, text).1)
    decreases |text|
  {
    hide Given, Loaded, ParsedLine, LineLen;
    if text != "" {
      var k := LineLen(text, LINE_MAX - 1);
      var line := text[..k];
      LineShape(text, LINE_MAX - 1);
      assert Line(line);
      var parsed := ParsedLine(line);
      if !parsed.Bad? {
        ParsedGives(m, cur, line);
        ReadGives(Loaded(m, cur, parsed).0, Loaded(m, cur, parsed).1, text[k..]);
      }
    }
  }

  // Every item is in the view.
  lemma ItemInView(secs: seq<Section>, i: nat, j: nat)
    requires WellKept(secs) && i < |secs| && j < |secs[i].value|
    ensures var (s, item) := (secs[i], secs[i].value[j]);
      s.name in View(secs) && item.name in View(secs)[s.name] && View(secs)[s.name][item.name] == item.value
  {
    ViewAt(secs, i);
    MapAgrees(secs[i].value);
  }

  lemma GivenView(v: Contents)
    requires Given(WithDefault(v))
    ensures Given(v)
  {
    var w := WithDefault(v);
    assert forall name :: name in v ==> name in w && v[name] == w[name];
  }

  lemma WithDefaultSame(a: Contents, b: Contents, name: string)
    requires WithDefault(a) == WithDefault(b) && name in a && name in b
    ensures a[name] == b[name]
  {
    assert WithDefault(a)[name] == a[name] && WithDefault(b)[name] == b[name];
  }

  lemma RoundTripGives(secs: seq<Section>)
    requires WellKept(secs) && RoundTrips(secs)
    ensures AllReadable(secs)
  {
    hide ReadText, View, Printed;
    assert Given(EMPTY);
    ReadGives(EMPTY, DEFAULT, Printed(secs));
    GivenView(View(secs));
    forall i | 0 <= i < |secs|
      ensures NameOk(secs[i].name) && forall j :: 0 <= j < |secs[i].value| ==> ItemReadable(secs[i].value[j])
    {
      ViewAt(secs, i);
      forall j | 0 <= j < |secs[i].value| ensures ItemReadable(secs[i].value[j]) {
        ItemInView(secs, i, j);
        assert Named(secs[i].value[j].name, secs[i].value[j].value) == secs[i].value[j];
      }
    }
  }

  lemma SameValues(secs: seq<Section>, i: nat, j: nat)
    requires WellKept(secs) && WithDefault(View(TrimmedSecs(secs))) == WithDefault(View(secs))
    requires i < |secs| && j < |secs[i].value|
    ensures Trimmed(secs[i].value[j].value) == secs[i].value[j].value
  {
    hide View, Trimmed;
    var t := TrimmedSecs(secs);
    TrimmedKept(secs);
    ItemInView(secs, i, j);
    ItemInView(t, i, j);
    WithDefaultSame(View(t), View(secs), secs[i].name);
    assert t[i].name == secs[i].name && t[i].value[j].name == secs[i].value[j].name;
  }

  lemma TrimmedSame(secs: seq<Section>)
    requires WellFormed(secs)
    ensures TrimmedSecs(secs) == secs
  {
    forall i | 0 <= i < |secs| ensures TrimmedItems(secs[i].value) == secs[i].value {
      forall j | 0 <= j < |secs[i].value| ensures Trimmed(secs[i].value[j].value) == secs[i].value[j].value {
        assert ItemOk(secs[i].value[j]);
      }
    }
  }

  /**
    Reading back what was written gives the same sections, options and values,
    and a DEFAULT section, exactly if all the names, options and values are well
    formed and their lines fit the buffer.
   */
  lemma PrintParseRoundTrip(secs: seq<Section>)
    requires WellKept(secs)
    ensures RoundTrips(secs) <==> WellFormed(secs)
  {
    hide ReadText, View, Trimmed, Printed;
    if WellFormed(secs) {
      ReadPrinted(secs);
      TrimmedSame(secs);
    }
    if RoundTrips(secs) {
      RoundTripGives(secs);
      ReadPrinted(secs);
      forall i, j | 0 <= i < |secs| && 0 <= j < |secs[i].value| ensures ItemOk(secs[i].value[j]) {
        SameValues(secs, i, j);
        TrimmedIsPrefix(secs[i].value[j].value);
      }
    }
  }

  // ----- lines that start with white space -----

  lemma {:induction false} SkipSpaces(w: string, s: string)
    requires AllSpace(w) && (s != "" ==> !IsSpace(s[0]))
    ensures SkipSpace(w + s) == s
  {
    if w == "" {
      assert w + s == s;
    } else {
      assert (w + s)[1..] == w[1..] + s;
      SkipSpaces(w[1..], s);
    }
  }

  lemma {:induction false} SkipSpaceTail(s: string)
    ensures |SkipSpace(s)| <= |s| && s[|s| - |SkipSpace(s)|..] == SkipSpace(s)
    ensures SkipSpace(s) == s <==> s == "" || !IsSpace(s[0])
  {
    if s != "" && IsSpace(s[0]) {
      SkipSpaceTail(s[1..]);
    }
  }

  lemma {:induction false} TrimRightShortens(s: string)
    ensures |TrimRight(s)| <= |s|
  {
    if |s| > 1 && IsSpace(s[|s| - 1]) {
      TrimRightShortens(s[..|s| - 1]);
    }
  }

  /** A line loses the white space at both its ends exactly when it does not have it at both. */
  lemma TrimmedExactly(line: string)
    ensures Body(line) == TrimRight(SkipSpace(line))
      <==> line == "" || !IsSpace(line[0]) || !IsSpace(line[|line| - 1]) || |SkipSpace(line)| <= 1
  {
    var p0 := SkipSpace(line);
    SkipSpaceTail(line);
    if |p0| > 1 && |p0| < |line| && IsSpace(line[|line| - 1]) {
      assert p0[|p0| - 1] == line[|line| - 1];
      TrimRightShortens(p0[..|p0| - 1]);
    }
  }

  // What a printed line comes to behind white space.
  lemma IndentedBody(w: string, body: string)
    requires AllSpace(w) && body != "" && !IsSpace(body[0]) && !IsSpace(body[|body| - 1])
    ensures ParsedLine(w + (body + "\n")) == if w == "" then ParsedBody(body) else ParsedBody(body + "\n")
  {
    if w == "" {
      assert w + (body + "\n") == body + "\n";
      LineTrimmed(body);
    } else {
      SkipSpaces(w, body + "\n");
    }
  }

  /** A setting behind white space is read with a newline at the end of its value, unless the value is empty. */
  lemma IndentedItem(w: string, item: Item)
    requires AllSpace(w) && ItemOk(item)
    ensures ParsedLine(w + PrintedItem(item))
      == Setting(item.name, if w == "" || item.value == "" then item.value else item.value + "\n")
  {
    hide ParsedLine, ParsedBody, SkipSpace;
    var body := item.name + "=" + item.value;
    assert PrintedItem(item) == body + "\n";
    BodyEnds(item.name, item.value);
    IndentedBody(w, body);
    SettingParsed(item.name, item.value);
    SettingParsed(item.name, item.value + "\n");
    assert body + "\n" == item.name + "=" + (item.value + "\n");
    ValueSkipped(item.value);
  }

  lemma BodyEnds(option: string, value: string)
    requires OptionOk(option) && ValueOk(value)
    ensures var body := option + "=" + value; !IsSpace(body[0]) && !IsSpace(body[|body| - 1])
  {
    var body := option + "=" + value;
    assert body[0] == if option == "" then '=' else option[0];
    assert body[|body| - 1] == if value == "" then '=' else value[|value| - 1];
  }

  lemma ValueSkipped(value: string)
    requires ValueOk(value)
    ensures SkipSpace(value) == value
    ensures SkipSpace(value + "\n") == if value == "" then "" else value + "\n"
  {
    assert value == "" ==> value + "\n" == "\n" && SkipSpace("\n") == SkipSpace("") == "";
  }

  /** So it is read as it was written exactly when there is no white space before it or the value is empty. */
  lemma IndentedItemExactly(w: string, item: Item)
    requires AllSpace(w) && ItemOk(item)
    ensures ParsedLine(w + PrintedItem(item)) == Setting(item.name, item.value) <==> w == "" || item.value == ""
  {
    IndentedItem(w, item);
  }

  /** A section line is accepted exactly when there is no white space before it. */
  lemma IndentedHeader(w: string, name: string)
    requires AllSpace(w) && NameOk(name)
    ensures ParsedLine(w + PrintedHeader(name)) == if w == "" then Header(name) else Bad
  {
    var body := "[" + name + "]";
    assert PrintedHeader(name) == body + "\n";
    IndentedBody(w, body);
    if w == "" {
      HeaderParsed(name);
      LineTrimmed(body);
    } else {
      var rest := (body + "\n")[1..];
      assert rest == name + "]\n";
      IndexFound(name, ']', ']', "]\n");
    }
  }

  /** One section line with white space before it fails the whole read. */
  lemma IndentedHeaderFails(m: Contents, cur: string, w: string, name: string, rest: string)
    requires cur in m && w != "" && AllSpace(w) && '\n' !in w && NameOk(name) && |w| + |name| + 3 < LINE_MAX
    ensures ReadText(m, cur, w + PrintedHeader(name) + rest) == (false, m)
  {
    var body := w + ("[" + name + "]");
    LineRead(body, rest);
    IndentedHeader(w, name);
    assert w + PrintedHeader(name) == body + "\n";
  }

  // Two inputs.
  lemma IndentedLines()
    ensures ParsedLine(" o=v\n") == Setting("o", "v\n")
    ensures ReadText(map[DEFAULT := map[]], DEFAULT, " [s]\n") == (false, map[DEFAULT := map[]])
  {
    hide ParsedLine, ReadText;
    IndentedItem(" ", Named("o", "v"));
    assert " " + PrintedItem(Named("o", "v")) == " o=v\n";
    IndentedHeaderFails(map[DEFAULT := map[]], DEFAULT, " ", "s", "");
    assert " " + PrintedHeader("s") + "" == " [s]\n";
  }

  // ----- russ_conf_readfd -----

  lemma SkipAt(s: string, k: nat)
    requires k < |s| && IsSpace(s[k])
    ensures SkipSpace(s[k..]) == SkipSpace(s[k + 1..])
  {
    assert s[k..][1..] == s[k + 1..];
  }

  // The rest of the line without leading white space.
  method SkipFrom(line: string, from: nat, end: nat) returns (p: nat)
    requires from <= end <= |line|
    ensures from <= p <= end && line[p..end] == SkipSpace(line[from..end])
  {
    p := from;
    while p < end && IsSpace(line[p])
      invariant from <= p <= end && SkipSpace(line[from..end]) == SkipSpace(line[p..end])
    {
      SkipAt(line[..end], p);
      assert line[..end][p..] == line[p..end] && line[..end][p + 1..] == line[p + 1..end];
      p := p + 1;
    }
  }

  method FindChar(line: string, from: nat, end: nat, a: char, b: char) returns (p: nat)
    requires from <= end <= |line|
    ensures from <= p <= end && p - from == IndexOf(line[from..end], a, b)
  {
    p := from;
    while p < end && line[p] != a && line[p] != b
      invariant from <= p <= end && IndexOf(line[from..end], a, b) == p - from + IndexOf(line[p..end], a, b)
    {
      assert line[p..end][1..] == line[p + 1..end];
      p := p + 1;
    }
  }

  // Where the line starts and ends without the white space around it.
  method Bounds(line: string) returns (p0: nat, end: nat)
    ensures p0 <= end <= |line| && line[p0..end] == Body(line)
  {
    p0 := SkipFrom(line, 0, |line|);
    assert line[0..|line|] == line && line[p0..|line|] == line[p0..];
    end := |line|;
    if p0 == 0 {
      while end > 1 && IsSpace(line[end - 1])
        invariant 0 <= end <= |line| && TrimRight(line) == TrimRight(line[..end])
      {
        assert line[..end][..end - 1] == line[..end - 1];
        end := end - 1;
      }
    }
  }

  method ParseBody(body: string) returns (r: Parsed)
    ensures r == ParsedBody(body)
  {
    assert body[0..|body|] == body;
    if body == "" || body[0] == '#' {
      return Blank;
    }
    if body[0] == '[' {
      var p1 := FindChar(body, 1, |body|, ']', ']');
      assert body[1..|body|] == body[1..];
      if p1 == |body| || p1 + 1 < |body| {
        return Bad;
      }
      assert body[1..][..p1 - 1] == body[1..p1];
      return Header(body[1..p1]);
    }
    var p1 := FindChar(body, 0, |body|, ':', '=');
    if p1 == |body| {
      return Bad;
    }
    var v := SkipFrom(body, p1 + 1, |body|);
    assert body[v..|body|] == body[v..] && body[p1 + 1..|body|] == body[p1 + 1..];
    r := Setting(body[..p1], body[v..]);
  }

  method ParseLine(line: string) returns (r: Parsed)
    ensures r == ParsedLine(line)
  {
    var p0, end := Bounds(line);
    r := ParseBody(line[p0..end]);
  }

  // fgets
  method NextLine(text: string, at: nat) returns (next: nat)
    requires at < |text|
    ensures at < next <= |text| && next - at == LineLen(text[at..], LINE_MAX - 1)
  {
    next := at;
    while next < |text| && next - at < LINE_MAX - 1
      invariant at <= next <= |text| && next - at <= LINE_MAX - 1
      invariant LineLen(text[at..], LINE_MAX - 1) == next - at + LineLen(text[next..], LINE_MAX - 1 - (next - at))
    {
      assert text[next..][1..] == text[next + 1..];
      next := next + 1;
      if text[next - 1] == '\n' {
        return;
      }
    }
  }

  // A section or an option into the store.
  method Load(self: Conf, pos: nat, parsed: Parsed) returns (now: nat)
    requires self.Valid() && pos < |self.sections| && !parsed.Bad?
    modifies self
    ensures self.Valid() && now < |self.sections|
    ensures var cur := old(self.sections)[pos].name;
      cur in old(self.Map()) && (self.Map(), self.sections[now].name) == Loaded(old(self.Map()), cur, parsed)
  {
    now := pos;
    ViewAt(self.sections, pos);
    match parsed {
      case Blank =>
      case Header(name) => now := self.EnsureSection(name);
      case Setting(option, value) =>
        var items := SectionSet(self.sections[pos].value, option, value);
        ViewReplace(self.sections, pos, items);
        self.sections := self.sections[pos := Named(self.sections[pos].name, items)];
    }
  }

  // One line of the text into the store.
  method LoadLine(self: Conf, text: string, at: nat, pos: nat) returns (ok: bool, next: nat, now: nat)
    requires self.Valid() && pos < |self.sections| && at < |text| && self.sections[pos].name in self.Map()
    modifies self
    ensures self.Valid() && at < next <= |text| && now < |self.sections|
    ensures self.sections[now].name in self.Map()
    ensures var whole := ReadText(old(self.Map()), old(self.sections[pos].name), text[at..]);
      whole == if ok then ReadText(self.Map(), self.sections[now].name, text[next..]) else (false, self.Map())
  {
    hide ReadText, Loaded, LineLen, ParsedLine;
    next := NextLine(text, at);
    var line := text[at..next];
    assert text[at..][..next - at] == line && text[at..][next - at..] == text[next..];
    ReadLine(self.Map(), self.sections[pos].name, text[at..], line, text[next..]);
    var parsed := ParseLine(line);
    if parsed.Bad? {
      return false, next, pos;
    }
    now := Load(self, pos, parsed);
    ok := true;
  }

  /**
    Reads a text into a store. It is refused if there is a DEFAULT section
    already; a line that is neither blank, a comment, a section nor a setting
    ends it with failure and what was read before it.
   */
  method ReadFd(self: Conf, text: string) returns (rv: int)
    requires self.Valid()
    modifies self
    ensures self.Valid() && (rv == 0 || rv == -1)
    ensures DEFAULT in old(self.Map()) ==> rv == -1 && self.sections == old(self.sections)
    ensures DEFAULT !in old(self.Map())
      ==> (rv == 0, self.Map()) == ReadText(old(self.Map())[DEFAULT := map[]], DEFAULT, text)
  {
    var pos := self.AddSection(DEFAULT);
    if pos < 0 {
      return -1;
    }
    hide ReadText, Loaded, LineLen, ParsedLine;
    ghost var whole := ReadText(self.Map(), DEFAULT, text);
    var at := 0;
    assert text[0..] == text;
    ViewAt(self.sections, pos);
    while at < |text|
      invariant 0 <= at <= |text| && self.Valid() && 0 <= pos < |self.sections| && self.sections[pos].name in self.Map()
      invariant whole == ReadText(self.Map(), self.sections[pos].name, text[at..])
    {
      var ok;
      ok, at, pos := LoadLine(self, text, at, pos);
      if !ok {
        return -1;
      }
    }
    ReadNothing(self.Map(), self.sections[pos].name);
    rv := 0;
  }

  // ----- russ_conf_writefd -----

  method WriteFd(self: Conf) returns (text: string)
    ensures text == Printed(self.sections)
  {
    text := "";
    for i := 0 to |self.sections|
      invariant text == Printed(self.sections[..i])
    {
      var s := self.sections[i];
      assert self.sections[..i + 1][..i] == self.sections[..i];
      ghost var before := text;
      text := text + PrintedHeader(s.name);
      for j := 0 to |s.value|
        invariant text == before + (PrintedHeader(s.name) + PrintedItems(s.value[..j]))
      {
        assert s.value[..j + 1][..j] == s.value[..j];
        text := text + PrintedItem(s.value[j]);
      }
      assert s.value[..|s.value|] == s.value;
      text := text + "\n";
      assert text == before + (PrintedHeader(s.name) + (PrintedItems(s.value) + "\n"));
    }
    assert self.sections[..|self.sections|] == self.sections;
  }

  /**
    A store that is written and read into an empty one is there again, with a
    DEFAULT section, exactly if it is well formed.
   */
  method WriteThenRead(self: Conf) returns (copy: Conf, rv: int)
    requires self.Valid()
    ensures fresh(copy) && copy.Valid()
    ensures rv == 0 && copy.Map() == WithDefault(self.Map()) <==> WellFormed(self.sections)
  {
    hide ReadText, WellFormed, Printed;
    copy := new Conf();
    var text := WriteFd(self);
    PrintParseRoundTrip(self.sections);
    assert copy.Map()[DEFAULT := map[]] == EMPTY;
    rv := ReadFd(copy, text);
  }
}
