/**
  The lines of a configuration text one by one, whoever wrote them: what is
  skipped, what sets an option, what opens a section and what ends the reading.
 */
module ConfLines {
  import opened Bytes
  import opened Conf
  import opened ConfFile

  // ----- lines that are skipped -----

  // A line, with its newline in the buffer or not, that says nothing.
  lemma ReadSkipped(m: Contents, cur: string, body: string, rest: string)
    requires cur in m && '\n' !in body && |body| < LINE_MAX
    requires ParsedLine(body + "\n") == Blank && ParsedLine(body) == Blank
    ensures ReadText(m, cur, body + "\n" + rest) == ReadText(m, cur, rest)
  {
    hide ReadText, ParsedLine, LineLen;
    var text := body + "\n" + rest;
    if |body| + 1 < LINE_MAX {
      LineFound(body, rest, LINE_MAX - 1);
      assert text[..|body| + 1] == body + "\n" && text[|body| + 1..] == rest;
      ReadLine(m, cur, text, body + "\n", rest);
    } else {
      LineFills(body, rest, LINE_MAX - 1);
      assert text[..|body|] == body && text[|body|..] == "\n" + rest;
      ReadLine(m, cur, text, body, "\n" + rest);
      ReadBlank(m, cur, rest);
    }
  }

  lemma CommentParsed(w: string, c: string)
    requires AllSpace(w)
    ensures ParsedLine(w + ("#" + c)) == Blank
  {
    var comment := "#" + c;
    var line := w + comment;
    SkipSpaces(w, comment);
    if w == "" {
      assert line == comment;
      TrimRightPrefix(line);
      assert TrimRight(line)[0] == '#';
    }
  }

  /** A comment is skipped, with or without white space before it. */
  lemma CommentSkipped(m: Contents, cur: string, w: string, c: string, rest: string)
    requires cur in m && AllSpace(w) && '\n' !in w && '\n' !in c && |w| + 1 + |c| < LINE_MAX
    ensures ReadText(m, cur, w + ("#" + c) + "\n" + rest) == ReadText(m, cur, rest)
  {
    hide ReadText, ParsedLine;
    CommentParsed(w, c);
    CommentParsed(w, c + "\n");
    assert w + ("#" + c) + "\n" == w + ("#" + (c + "\n"));
    ReadSkipped(m, cur, w + ("#" + c), rest);
  }

  lemma SpaceParsed(w: string)
    requires AllSpace(w)
    ensures ParsedLine(w) == Blank
  {
    SkipSpaces(w, "");
    assert w + "" == w;
  }

  /** A line of white space is skipped. */
  lemma SpaceSkipped(m: Contents, cur: string, w: string, rest: string)
    requires cur in m && AllSpace(w) && '\n' !in w && |w| < LINE_MAX
    ensures ReadText(m, cur, w + "\n" + rest) == ReadText(m, cur, rest)
  {
    hide ReadText, ParsedLine;
    SpaceParsed(w);
    SpaceParsed(w + "\n");
    ReadSkipped(m, cur, w, rest);
  }

  // ----- settings and sections -----

  lemma {:induction false} SpacesTrimmed(s: string, w: string)
    requires AllSpace(w)
    ensures Trimmed(s + w) == Trimmed(s)
    decreases |w|
  {
    if w == "" {
      assert s + w == s;
    } else {
      assert (s + w)[..|s + w| - 1] == s + w[..|w| - 1];
      SpacesTrimmed(s, w[..|w| - 1]);
    }
  }

  lemma Delimited(option: string, d: string, tail: string)
    requires OptionOk(option) && (d == ":" || d == "=")
    ensures ParsedBody(option + d + tail) == Setting(option, SkipSpace(tail))
  {
    var body := option + d + tail;
    assert body == option + (d + tail);
    IndexFound(option, ':', '=', d + tail);
    assert body[..|option|] == option && body[|option| + 1..] == tail;
    assert body[0] == if option == "" then d[0] else option[0];
  }

  /**
    A setting sets the option, whichever delimiter it has and whatever white
    space follows the delimiter or the value.
   */
  lemma SettingRead(m: Contents, cur: string, option: string, d: string, w: string, value: string, v: string,
                    rest: string)
    requires cur in m && OptionOk(option) && (d == ":" || d == "=") && ValueOk(value)
    requires AllSpace(w) && AllSpace(v) && '\n' !in w && '\n' !in v
    requires |option| + 1 + |w| + |value| + |v| < LINE_MAX
    ensures ReadText(m, cur, option + d + (w + value + v) + "\n" + rest)
      == ReadText(m[cur := m[cur][option := value]], cur, rest)
  {
    hide ReadText, ParsedBody, TrimRight, SkipSpace, Trimmed;
    var body := option + d + (w + value + v);
    assert body[0] == if option == "" then d[0] else option[0];
    TrimsTail(option + d, w + value + v);
    SpacesTrimmed(w + value, v);
    if value == "" {
      assert w + value == w && "" + w == w && "" + "" == "";
      SpacesTrimmed("", w);
      TrimmedIsPrefix("");
      SkipSpaces("", "");
    } else {
      assert (w + value)[|w + value| - 1] == value[|value| - 1];
      TrimmedIsPrefix(w + value);
      SkipSpaces(w, value);
    }
    var tail := if value == "" then "" else w + value;
    assert TrimRight(body) == option + d + tail;
    Delimited(option, d, tail);
    ReadBody(m, cur, body, rest);
  }

  /** A section line opens the section, whatever white space follows it. */
  lemma SectionRead(m: Contents, cur: string, name: string, v: string, rest: string)
    requires cur in m && ']' !in name && '\n' !in name && AllSpace(v) && '\n' !in v && |name| + 2 + |v| < LINE_MAX
    ensures ReadText(m, cur, "[" + name + "]" + v + "\n" + rest) == ReadText(m[name := Get(m, name)], name, rest)
  {
    hide ReadText, ParsedBody, TrimRight, Trimmed;
    var head := "[" + name + "]";
    TrimsTail(head, v);
    SpacesTrimmed("", v);
    TrimmedIsPrefix("");
    assert "" + v == v && head + "" == head;
    SectionParsed(name);
    assert ParsedBody(head) == Header(name);
    var body := head + v;
    assert body[0] == '[';
    ReadBody(m, cur, body, rest);
    assert TrimRight(body) == head;
  }

  lemma SectionParsed(name: string)
    requires ']' !in name
    ensures ParsedBody("[" + name + "]") == Header(name)
  {
    var rest := ("[" + name + "]")[1..];
    assert rest == name + "]";
    IndexFound(name, ']', ']', "]");
    assert rest[..|name|] == name;
  }

  // ----- lines that end the reading -----

  lemma {:induction false} IndexMissing(s: string, a: char, b: char)
    requires a !in s && b !in s
    ensures IndexOf(s, a, b) == |s|
  {
    if s != "" {
      IndexMissing(s[1..], a, b);
    }
  }

  // A line that is refused ends the reading with failure, and what was read before it stays.
  lemma ReadRefused(m: Contents, cur: string, body: string, rest: string)
    requires cur in m && '\n' !in body && |body| < LINE_MAX && body != "" && !IsSpace(body[0])
    requires ParsedBody(TrimRight(body)) == Bad
    ensures ReadText(m, cur, body + "\n" + rest) == (false, m)
  {
    hide ReadText, ParsedBody, TrimRight;
    ReadBody(m, cur, body, rest);
  }

  /** Text without a delimiter is refused. */
  lemma NoDelimiterFails(m: Contents, cur: string, body: string, rest: string)
    requires cur in m && |body| < LINE_MAX && body != "" && !IsSpace(body[0]) && body[0] != '#' && body[0] != '['
    requires '\n' !in body && ':' !in body && '=' !in body
    ensures ReadText(m, cur, body + "\n" + rest) == (false, m)
  {
    hide ReadText;
    var t := TrimRight(body);
    TrimRightPrefix(body);
    assert t[0] == body[0] && forall i :: 0 <= i < |t| ==> t[i] == body[i];
    IndexMissing(t, ':', '=');
    ReadRefused(m, cur, body, rest);
  }

  /** A section line that is not closed is refused. */
  lemma OpenSectionFails(m: Contents, cur: string, name: string, rest: string)
    requires cur in m && |name| + 1 < LINE_MAX && '\n' !in name && ']' !in name
    ensures ReadText(m, cur, "[" + name + "\n" + rest) == (false, m)
  {
    hide ReadText;
    var body := "[" + name;
    var t := TrimRight(body);
    TrimRightPrefix(body);
    assert t[0] == '[' && forall i :: 0 <= i < |t| ==> t[i] == body[i];
    IndexMissing(t[1..], ']', ']');
    ReadRefused(m, cur, body, rest);
  }

  /** So is one with anything but white space behind it. */
  lemma SectionTailFails(m: Contents, cur: string, name: string, tail: string, rest: string)
    requires cur in m && ']' !in name && '\n' !in name && '\n' !in tail && |name| + 2 + |tail| < LINE_MAX
    requires tail != "" && !IsSpace(tail[|tail| - 1])
    ensures ReadText(m, cur, "[" + name + "]" + tail + "\n" + rest) == (false, m)
  {
    hide ReadText;
    var body := "[" + name + "]" + tail;
    assert TrimRight(body) == body;
    assert body[1..] == name + ("]" + tail);
    IndexFound(name, ']', ']', "]" + tail);
    ReadRefused(m, cur, body, rest);
  }

  // ----- texts -----

  /** A text that starts with a comment, as the sample configurations do. */
  lemma CommentedText()
    ensures ReadText(EMPTY, DEFAULT, "#russ service=socket\n[a]\nx: 1\n")
      == (true, map["DEFAULT" := map[], "a" := map["x" := "1"]])
  {
    hide ReadText;
    var text := "#russ service=socket\n[a]\nx: 1\n";
    var c := "russ service=socket";
    assert text == "" + ("#" + c) + "\n" + "[a]\nx: 1\n";
    CommentSkipped(EMPTY, DEFAULT, "", c, "[a]\nx: 1\n");
    assert "[a]\nx: 1\n" == "[" + "a" + "]" + "" + "\n" + "x: 1\n";
    SectionRead(EMPTY, DEFAULT, "a", "", "x: 1\n");
    var m := EMPTY["a" := map[]];
    assert "x: 1\n" == "x" + ":" + (" " + "1" + "") + "\n" + "";
    SettingRead(m, "a", "x", ":", " ", "1", "", "");
    var f := m["a" := m["a"]["x" := "1"]];
    ReadNothing(f, "a");
    assert f == map["DEFAULT" := map[], "a" := map["x" := "1"]];
  }

  /** What is written, to the letter. */
  lemma WrittenText()
    ensures Printed([Named("a", [Named("x", "1"), Named("y", "2")]), Named("b", [])]) == "[a]\nx=1\ny=2\n\n[b]\n\n"
  {
    var items := [Named("x", "1"), Named("y", "2")];
    var secs := [Named("a", items), Named("b", [])];
    assert items[..1] == [Named("x", "1")] && items[..1][..0] == [];
    assert PrintedItems(items[..1]) == "" + "x=1\n";
    assert PrintedItems(items) == "x=1\n" + "y=2\n";
    assert secs[..1][..0] == [];
    assert Printed(secs[..1]) == "" + ("[a]\n" + (PrintedItems(items) + "\n"));
    assert Printed(secs) == Printed(secs[..1]) + ("[b]\n" + ("" + "\n"));
  }
}
