/** What a well-formed document means: a sequence of lines, each a section
    header, an unterminated header, a key/value pair (optionally followed by
    a comment), a bare key, a comment line or a blank line, written with backslash escapes for the structural
    characters. Loading the text of such a document yields exactly the
    document the lines describe. */
module IniRoundTrip {
  import opened IniTypes
  import opened IniScanner
  import opened IniDocument

  datatype Line =
    | Header(name: string)                                      // [name]
    | OpenHeader(name: string)                                  // [name   (no closing bracket)
    | Pair(key: string, value: string, note: Option<string>)    // key=value;note
    | BareKey(key: string)                                      // key     (no '=')
    | Remark(text: string)
    | Blank(spaces: string)

  /** The characters that need a backslash to be ordinary text. */
  predicate IsSpecial(c: char) {
    c == '\\' || c == ';' || c == '=' || c == '[' || c == ']'
  }

  predicate NoNewline(s: string) {
    forall i :: 0 <= i < |s| ==> s[i] != '\n'
  }

  /** The escaped form of one character. */
  function EscapeChar(c: char): (e: string)
    ensures 1 <= |e| <= 2 && e[|e| - 1] == c
  {
    if IsSpecial(c) then ['\\', c] else [c]
  }

  /** Token text written with a backslash before every structural character. */
  function Escape(t: string): (e: string)
    ensures |e| >= |t|
    ensures t == [] <==> e == []
  {
    if t == [] then [] else EscapeChar(t[0]) + Escape(t[1..])
  }

  predicate WellFormed(line: Line) {
    match line
    case Header(name) => name != "" && HeaderText(name)
    case OpenHeader(name) => HeaderText(name)
    case Pair(key, value, note) =>
      && key != "" && NoBlanks(key) && NoBlanks(value)
      && (note.Some? ==> value != "" && NoNewline(note.value))
    case BareKey(key) => key != "" && NoBlanks(key)
    case Remark(text) => NoNewline(text)
    case Blank(spaces) => forall i :: 0 <= i < |spaces| ==> spaces[i] == ' ' || IsIgnored(spaces[i])
  }

  /** The text of one line, without its newline. */
  function Render(line: Line): string {
    match line
    case Header(name) => "[" + Escape(name) + "]"
    case OpenHeader(name) => "[" + Escape(name)
    case Pair(key, value, note) =>
      Escape(key) + "=" + Escape(value) + (if note.Some? then ";" + note.value else "")
    case BareKey(key) => Escape(key)
    case Remark(text) => ";" + text
    case Blank(spaces) => spaces
  }

  /** The text of a document: every line followed by a newline. */
  function RenderAll(lines: seq<Line>): string {
    if lines == [] then [] else Render(lines[0]) + "\n" + RenderAll(lines[1..])
  }

  /** The document after one line: a pair is stored in the current section
      (last write wins), a bare key with the empty value, other lines add
      nothing. */
  function LineDoc(doc: Document, current: string, line: Line): Document {
    match line
    case Pair(key, value, _) => Commit(doc, current, key, value)
    case BareKey(key) => Commit(doc, current, key, "")
    case _ => doc
  }

  /** The current section after one line: only a header, closed or not,
      changes it. */
  function LineSection(current: string, line: Line): string {
    match line
    case Header(name) => name
    case OpenHeader(name) => name
    case _ => current
  }

  /** The document the lines describe, starting from doc with the given
      current section. */
  function Interpret(doc: Document, current: string, lines: seq<Line>): Document
    decreases |lines|
  {
    if lines == [] then doc
    else Interpret(LineDoc(doc, current, lines[0]), LineSection(current, lines[0]), lines[1..])
  }

  /** The state after escaped text t has been scanned from state ls. */
  function AfterText(ls: LineState, t: string): LineState {
    if t == [] then ls else LineState(AppendText(ls.rs, t), false, true, false)
  }

  /** Text that the current buffer can take: no tab-like character or newline
      in a section name, and no blank at all in a key or a value. */
  predicate Fits(kind: TokenType, t: string) {
    if kind == Section then HeaderText(t) else NoBlanks(t)
  }

  lemma {:induction false} EscapeNoNewline(t: string)
    requires NoNewline(t)
    ensures NoNewline(Escape(t))
    decreases |t|
  {
    if t != [] {
      assert NoNewline(t[1..]) by {
        assert forall m | 0 <= m < |t[1..]| :: t[1..][m] == t[m + 1];
      }
      EscapeNoNewline(t[1..]);
      var e, h, r := Escape(t), EscapeChar(t[0]), Escape(t[1..]);
      assert e == h + r;
      forall m | 0 <= m < |e| ensures e[m] != '\n' {
        if m < |h| { assert e[m] == h[m]; } else { assert e[m] == r[m - |h|]; }
      }
    }
  }

  lemma {:induction false} BlanksHaveNoNewline(t: string)
    requires NoBlanks(t)
    ensures NoNewline(t)
  {
    forall i | 0 <= i < |t|
      ensures t[i] != '\n'
    {
      assert !IsBlank(t[i]);
    }
  }

  lemma {:induction false} HeaderHasNoNewline(t: string)
    requires HeaderText(t)
    ensures NoNewline(t)
  {
    forall i | 0 <= i < |t|
      ensures t[i] != '\n'
    {
      assert InHeader(t[i]);
    }
  }

  /** A slice that spells newline-free text holds no newline. */
  lemma {:induction false} SliceNoNewline(src: seq<char>, i: nat, j: nat, s: string)
    requires i <= j <= |src| && src[i..j] == s && NoNewline(s)
    ensures forall m | i <= m < j :: src[m] != '\n'
  {
    forall m | i <= m < j ensures src[m] != '\n' {
      assert src[m] == s[m - i];
    }
  }

  /** A line that starts with newline-free text that only continues the
      scan goes on after that text with the state the text leaves. */
  lemma {:induction false} ScanLineThrough(rs: ReadState, src: seq<char>, pos: nat, text: string, ls': LineState)
    requires pos + |text| <= |src| && src[pos..pos + |text|] == text
    requires NoNewline(text) && Steps(LineStart(rs), text) == Some(ls')
    ensures ScanLine(rs, src, pos) == ScanFrom(ls', src, pos + |text|)
  {
    SliceNoNewline(src, pos, pos + |text|, text);
    ScanThrough(LineStart(rs), src, pos, pos + |text|, ls');
  }

  /** The two halves of a slice that spells a concatenation. */
  lemma {:induction false} SliceSplit(src: seq<char>, i: nat, a: string, b: string)
    requires i + |a| + |b| <= |src| && src[i..i + |a| + |b|] == a + b
    ensures src[i..i + |a|] == a && src[i + |a|..i + |a| + |b|] == b
  {
    assert src[i..i + |a|] == (a + b)[..|a|];
    assert src[i + |a|..i + |a| + |b|] == (a + b)[|a|..];
  }

  /** Scanning the escaped form of one character appends that character. */
  lemma {:induction false} StepsEscapedChar(ls: LineState, c: char)
    requires !ls.escape && Fits(ls.rs.kind, [c])
    ensures Steps(ls, EscapeChar(c)) == Some(LineState(AppendText(ls.rs, [c]), false, true, false))
  {
    var ls' := LineState(AppendText(ls.rs, [c]), false, true, false);
    assert [c][0] == c;
    assert ls.rs.kind != Section ==> !IsBlank([c][0]);
    assert ls.rs.kind == Section ==> InHeader([c][0]);
    assert !IsIgnored(c) && c != '\n';
    if IsSpecial(c) {
      var esc := ls.(escape := true, read := true, first := false);
      assert Step(ls, '\\') == Next(esc);
      assert Step(esc, c) == Next(ls');
      assert [c][1..] == [];
      assert Steps(esc, [c]) == Some(ls');
      assert EscapeChar(c)[1..] == [c];
    } else {
      assert Step(ls, c) == Next(ls');
      assert EscapeChar(c)[1..] == [];
    }
  }

  lemma {:induction false} AfterTextCons(ls: LineState, t: string)
    requires t != []
    ensures AfterText(LineState(AppendText(ls.rs, [t[0]]), false, true, false), t[1..]) == AfterText(ls, t)
  {
    if t[1..] != [] {
      AppendTextTwice(ls.rs, [t[0]], t[1..]);
      assert [t[0]] + t[1..] == t;
    } else {
      assert t == [t[0]];
    }
  }

  /** Scanning the escaped form of t appends exactly t to the current buffer:
      a backslash pair gives one backslash, and a backslash makes the next
      structural character ordinary text. */
  lemma {:induction false} StepsEscaped(ls: LineState, t: string)
    requires !ls.escape && Fits(ls.rs.kind, t)
    ensures Steps(ls, Escape(t)) == Some(AfterText(ls, t))
    decreases |t|
  {
    if t != [] {
      var c := t[0];
      assert Fits(ls.rs.kind, [c]) && Fits(ls.rs.kind, t[1..]) by {
        assert [c][0] == t[0];
        assert forall m | 0 <= m < |t[1..]| :: t[1..][m] == t[m + 1];
      }
      var ls' := LineState(AppendText(ls.rs, [c]), false, true, false);
      StepsConcat(ls, EscapeChar(c), Escape(t[1..]));
      StepsEscapedChar(ls, c);
      StepsEscaped(ls', t[1..]);
      AfterTextCons(ls, t);
    }
  }

  /** The text `key=value`, escaped, fills the key and value buffers. */
  lemma {:induction false} StepsAssignment(rs: ReadState, key: string, value: string)
    requires key != "" && NoBlanks(key) && NoBlanks(value) && rs.key == "" && rs.val == ""
    ensures Steps(LineStart(rs), Escape(key) + "=" + Escape(value))
         == Some(LineState(rs.(kind := Val, key := key, val := value), false, true, false))
  {
    var ls0 := LineStart(rs);
    var ls1 := LineState(rs.(kind := Key, key := key), false, true, false);
    var ls2 := ls1.(rs := ls1.rs.(kind := Val));
    StepsEscaped(ls0, key);
    assert AfterText(ls0, key) == ls1;
    assert Step(ls1, '=') == Next(ls2);
    assert Steps(ls1, "=") == Some(ls2);
    StepsEscaped(ls2, value);
    assert AfterText(ls2, value) == LineState(rs.(kind := Val, key := key, val := value), false, true, false);
    StepsConcat(ls0, Escape(key), "=");
    StepsConcat(ls0, Escape(key) + "=", Escape(value));
  }

  /** An unescaped `;` ends the line: the comment and its newline are
      consumed, and the line counts only if key and value are both set. */
  lemma {:induction false} ScanComment(ls: LineState, src: seq<char>, i: nat, text: string)
    requires !ls.escape && NoNewline(text)
    requires i + 1 + |text| < |src| && src[i..i + 1 + |text|] == ";" + text
    requires src[i + 1 + |text|] == '\n'
    ensures ScanFrom(ls, src, i)
         == LineResult(ls.rs, i + 2 + |text|, Ok(ls.rs.key != "" && ls.rs.val != ""))
  {
    var end := i + 1 + |text|;
    SliceSplit(src, i, ";", text);
    assert src[i] == ';' by { assert src[i..i + 1] == ";"; }
    assert Step(ls, ';') == Comment;
    SliceNoNewline(src, i + 1, end, text);
    SkipToNewline(src, i + 1, end);
  }

  /** Newline-free text that only continues the scan, then a comment that
      runs to the end of the line: the call returns whether the buffers hold
      both a key and a value. */
  lemma {:induction false} ScanTextThenComment(rs: ReadState, src: seq<char>, pos: nat, text: string,
                                               ls': LineState, j: nat, note: string)
    requires Steps(LineStart(rs), text) == Some(ls') && NoNewline(text) && !ls'.escape && NoNewline(note)
    requires j == pos + |text| && j + 1 + |note| < |src|
    requires src[pos..j] == text
    requires src[j..j + 1 + |note|] == ";" + note
    requires src[j + 1 + |note|] == '\n'
    ensures ScanLine(rs, src, pos)
         == LineResult(ls'.rs, j + 2 + |note|, Ok(ls'.rs.key != "" && ls'.rs.val != ""))
  {
    ScanLineThrough(rs, src, pos, text, ls');
    ScanComment(ls', src, j, note);
  }

  /** Escaped key and value text holds no newline. */
  lemma {:induction false} AssignmentNoNewline(key: string, value: string)
    requires NoBlanks(key) && NoBlanks(value)
    ensures NoNewline(Escape(key) + "=" + Escape(value))
  {
    var ek, ev := Escape(key), Escape(value);
    var assignment := ek + "=" + ev;
    BlanksHaveNoNewline(key);
    BlanksHaveNoNewline(value);
    EscapeNoNewline(key);
    EscapeNoNewline(value);
    forall m | 0 <= m < |assignment| ensures assignment[m] != '\n' {
      if m < |ek| { assert assignment[m] == ek[m]; }
      else if m > |ek| { assert assignment[m] == ev[m - |ek| - 1]; }
    }
  }

  /** A line that starts with `key=value`, escaped, goes on after it with the
      key and value buffers filled. */
  lemma {:induction false} ScanAssignment(rs: ReadState, src: seq<char>, pos: nat, key: string, value: string)
    requires key != "" && NoBlanks(key) && NoBlanks(value) && rs.key == "" && rs.val == ""
    requires pos + |Escape(key) + "=" + Escape(value)| <= |src|
    requires src[pos..pos + |Escape(key) + "=" + Escape(value)|] == Escape(key) + "=" + Escape(value)
    ensures ScanLine(rs, src, pos)
         == ScanFrom(LineState(rs.(kind := Val, key := key, val := value), false, true, false),
                     src, pos + |Escape(key) + "=" + Escape(value)|)
  {
    StepsAssignment(rs, key, value);
    AssignmentNoNewline(key, value);
    ScanLineThrough(rs, src, pos, Escape(key) + "=" + Escape(value),
                    LineState(rs.(kind := Val, key := key, val := value), false, true, false));
  }

  /** After a complete assignment, an optional comment and the newline end
      the line with true. */
  lemma {:induction false} ScanPairEnd(ls: LineState, src: seq<char>, i: nat, tail: string)
    requires !ls.escape && ls.read && ls.rs.key != ""
    requires tail == "" || (tail[0] == ';' && NoNewline(tail[1..]) && ls.rs.val != "")
    requires i + |tail| < |src| && src[i..i + |tail|] == tail && src[i + |tail|] == '\n'
    ensures ScanFrom(ls, src, i) == LineResult(ls.rs, i + |tail| + 1, Ok(true))
  {
    if tail != "" {
      var text := tail[1..];
      assert tail == ";" + text;
      ScanComment(ls, src, i, text);
    }
  }

  /** A pair line, with or without a trailing comment, stores its key and
      value and consumes its newline. */
  lemma {:induction false} ScanPairLine(rs: ReadState, src: seq<char>, pos: nat, key: string, value: string, tail: string)
    requires key != "" && NoBlanks(key) && NoBlanks(value) && rs.key == "" && rs.val == ""
    requires tail == "" || (tail[0] == ';' && NoNewline(tail[1..]) && value != "")
    requires pos + |Escape(key) + "=" + Escape(value) + tail| < |src|
    requires src[pos..pos + |Escape(key) + "=" + Escape(value) + tail|] == Escape(key) + "=" + Escape(value) + tail
    requires src[pos + |Escape(key) + "=" + Escape(value) + tail|] == '\n'
    ensures ScanLine(rs, src, pos)
         == LineResult(rs.(kind := Val, key := key, val := value),
                       pos + |Escape(key) + "=" + Escape(value) + tail| + 1, Ok(true))
  {
    var assignment := Escape(key) + "=" + Escape(value);
    var i := pos + |assignment|;
    var ls3 := LineState(rs.(kind := Val, key := key, val := value), false, true, false);
    assert src[pos..i] == assignment && src[i..i + |tail|] == tail by {
      SliceSplit(src, pos, assignment, tail);
    }
    assert ScanFrom(ls3, src, i) == LineResult(ls3.rs, i + |tail| + 1, Ok(true)) by {
      ScanPairEnd(ls3, src, i, tail);
    }
    assert ScanLine(rs, src, pos) == ScanFrom(ls3, src, i) by {
      ScanAssignment(rs, src, pos, key, value);
    }
  }

  /** An opening bracket at the start of a line, then escaped header text,
      fills the section buffer; `first` stays set while the name is empty. */
  lemma {:induction false} StepsOpenBracket(rs: ReadState, name: string)
    requires HeaderText(name)
    ensures Steps(LineStart(rs), "[" + Escape(name))
         == Some(LineState(rs.(kind := Section, section := name), false, true, name == ""))
  {
    var ls0 := LineStart(rs);
    var ls1 := ls0.(rs := ls0.rs.(section := "", kind := Section), read := true);
    assert Step(ls0, '[') == Next(ls1);
    assert Steps(ls0, "[") == Some(ls1);
    StepsEscaped(ls1, name);
    assert AfterText(ls1, name) == LineState(rs.(kind := Section, section := name), false, true, name == "");
    StepsConcat(ls0, "[", Escape(name));
  }

  lemma {:induction false} OpenBracketNoNewline(name: string)
    requires HeaderText(name)
    ensures NoNewline("[" + Escape(name))
  {
    HeaderHasNoNewline(name);
    EscapeNoNewline(name);
    ConsNoNewline('[', Escape(name));
  }

  lemma {:induction false} ConsNoNewline(c: char, t: string)
    requires c != '\n' && NoNewline(t)
    ensures NoNewline([c] + t)
  {
    forall m | 0 <= m < |[c] + t| ensures ([c] + t)[m] != '\n' {
      if m > 0 { assert ([c] + t)[m] == t[m - 1]; }
    }
  }

  /** A line that starts with `[` and an escaped name goes on after it in
      header mode. */
  lemma {:induction false} ScanOpenBracket(rs: ReadState, src: seq<char>, pos: nat, name: string)
    requires HeaderText(name)
    requires pos + 1 + |Escape(name)| <= |src| && src[pos..pos + 1 + |Escape(name)|] == "[" + Escape(name)
    ensures ScanLine(rs, src, pos)
         == ScanFrom(LineState(rs.(kind := Section, section := name), false, true, name == ""),
                     src, pos + 1 + |Escape(name)|)
  {
    StepsOpenBracket(rs, name);
    OpenBracketNoNewline(name);
    ScanLineThrough(rs, src, pos, "[" + Escape(name),
                    LineState(rs.(kind := Section, section := name), false, true, name == ""));
  }


  /** A header line sets the section buffer to its name and returns false at
      its closing bracket, before the newline. */
  lemma {:induction false} ScanHeaderLine(rs: ReadState, src: seq<char>, pos: nat, name: string)
    requires WellFormed(Header(name))
    requires pos + |Render(Header(name))| <= |src|
    requires src[pos..pos + |Render(Header(name))|] == Render(Header(name))
    ensures ScanLine(rs, src, pos)
         == LineResult(rs.(kind := Section, section := name), pos + |Render(Header(name))|, Ok(false))
  {
    var en := Escape(name);
    var close := pos + 1 + |en|;
    SliceSplit(src, pos, "[" + en, "]");
    assert src[close] == ']' by { assert src[close..close + 1] == "]"; }
    ScanOpenBracket(rs, src, pos, name);
    var ls2 := LineState(rs.(kind := Section, section := name), false, true, false);
    assert Step(ls2, ']') == HeaderClosed;
  }

  /** A header line without its closing bracket is no error: at the newline
      the section buffer holds the name and the call returns true. */
  lemma {:induction false} ScanOpenHeaderLine(rs: ReadState, src: seq<char>, pos: nat, name: string)
    requires WellFormed(OpenHeader(name))
    requires pos + |Render(OpenHeader(name))| < |src|
    requires src[pos..pos + |Render(OpenHeader(name))|] == Render(OpenHeader(name))
    requires src[pos + |Render(OpenHeader(name))|] == '\n'
    ensures ScanLine(rs, src, pos)
         == LineResult(rs.(kind := Section, section := name), pos + |Render(OpenHeader(name))| + 1, Ok(true))
  {
    ScanOpenBracket(rs, src, pos, name);
  }

  /** A line that starts with escaped key text goes on after it with that
      text appended to the key buffer. */
  lemma {:induction false} ScanText(rs: ReadState, src: seq<char>, pos: nat, key: string)
    requires NoBlanks(key)
    requires pos + |Escape(key)| <= |src| && src[pos..pos + |Escape(key)|] == Escape(key)
    ensures ScanLine(rs, src, pos) == ScanFrom(AfterText(LineStart(rs), key), src, pos + |Escape(key)|)
  {
    StepsEscaped(LineStart(rs), key);
    BlanksHaveNoNewline(key);
    EscapeNoNewline(key);
    ScanLineThrough(rs, src, pos, Escape(key), AfterText(LineStart(rs), key));
  }

  /** A line that starts with an escaped key goes on after it with the key
      buffer filled. */
  lemma {:induction false} ScanKey(rs: ReadState, src: seq<char>, pos: nat, key: string)
    requires key != "" && NoBlanks(key) && rs.key == ""
    requires pos + |Escape(key)| <= |src| && src[pos..pos + |Escape(key)|] == Escape(key)
    ensures ScanLine(rs, src, pos)
         == ScanFrom(LineState(rs.(kind := Key, key := key), false, true, false), src, pos + |Escape(key)|)
  {
    ScanText(rs, src, pos, key);
    assert AfterText(LineStart(rs), key) == LineState(rs.(kind := Key, key := key), false, true, false);
  }


  /** A key without `=` fills the key buffer and the call returns true. */
  lemma {:induction false} ScanBareKeyLine(rs: ReadState, src: seq<char>, pos: nat, key: string)
    requires WellFormed(BareKey(key)) && rs.key == "" && rs.val == ""
    requires pos + |Render(BareKey(key))| < |src|
    requires src[pos..pos + |Render(BareKey(key))|] == Render(BareKey(key))
    requires src[pos + |Render(BareKey(key))|] == '\n'
    ensures ScanLine(rs, src, pos)
         == LineResult(rs.(kind := Key, key := key), pos + |Render(BareKey(key))| + 1, Ok(true))
  {
    ScanKey(rs, src, pos, key);
  }

  lemma {:induction false} StepsBlank(ls: LineState, spaces: string)
    requires ls.rs.kind != Section
    requires forall m :: 0 <= m < |spaces| ==> spaces[m] == ' ' || IsIgnored(spaces[m])
    ensures Steps(ls, spaces) == Some(ls)
    decreases |spaces|
  {
    if spaces != [] {
      assert Step(ls, spaces[0]) == Next(ls);
      StepsBlank(ls, spaces[1..]);
    }
  }

  /** A comment line or a blank line consumes its newline and yields nothing,
      as long as the key buffer is empty. */
  lemma {:induction false} ScanQuietLine(rs: ReadState, src: seq<char>, pos: nat, line: Line)
    requires (line.Remark? || line.Blank?) && WellFormed(line) && rs.key == ""
    requires pos + |Render(line)| < |src|
    requires src[pos..pos + |Render(line)|] == Render(line)
    requires src[pos + |Render(line)|] == '\n'
    ensures ScanLine(rs, src, pos) == LineResult(rs.(kind := Key), pos + |Render(line)| + 1, Ok(false))
  {
    var end := pos + |Render(line)|;
    var ls0 := LineStart(rs);
    if line.Remark? {
      ScanComment(ls0, src, pos, line.text);
    } else {
      StepsBlank(ls0, line.spaces);
      assert NoNewline(line.spaces);
      SliceNoNewline(src, pos, end, line.spaces);
      ScanThrough(ls0, src, pos, end, ls0);
    }
  }

  /** The text of line stands at pos, followed by a newline. */
  predicate LineAt(src: seq<char>, pos: nat, line: Line) {
    && pos + |Render(line)| < |src|
    && src[pos..pos + |Render(line)|] == Render(line)
    && src[pos + |Render(line)|] == '\n'
  }

  /** What loading one well-formed line does: the load goes on after its
      newline with the line applied and the key and value buffers empty. */
  predicate LoadsLine(doc: Document, rs: ReadState, src: seq<char>, pos: nat, line: Line)
    requires LineAt(src, pos, line)
  {
    LoadFrom(doc, rs, src, pos)
      == LoadFrom(LineDoc(doc, rs.section, line),
                  ReadState(Key, LineSection(rs.section, line), "", ""), src, pos + |Render(line)| + 1)
  }

  /** A header line and its newline take two calls of the scanner: the
      first stops at the closing bracket, the second reads the newline. */
  lemma {:induction false} LoadHeaderLine(doc: Document, rs: ReadState, src: seq<char>, pos: nat, line: Line)
    requires line.Header? && WellFormed(line) && rs.key == "" && rs.val == "" && LineAt(src, pos, line)
    ensures LoadsLine(doc, rs, src, pos, line)
  {
    var end := pos + |Render(line)|;
    var rs1 := rs.(kind := Section, section := line.name);
    assert LoadFrom(doc, rs, src, pos) == LoadFrom(doc, rs1, src, end) by {
      ScanHeaderLine(rs, src, pos, line.name);
      LoadSkip(doc, rs, src, pos, rs1, end);
    }
    assert ScanLine(rs1, src, end) == LineResult(rs1.(kind := Key), end + 1, Ok(false));
    LoadSkip(doc, rs1, src, end, rs1.(kind := Key), end + 1);
  }

  /** A pair line stores its pair in the current section. */
  lemma {:induction false} LoadPairLine(doc: Document, rs: ReadState, src: seq<char>, pos: nat, line: Line)
    requires line.Pair? && WellFormed(line) && rs.key == "" && rs.val == "" && LineAt(src, pos, line)
    ensures LoadsLine(doc, rs, src, pos, line)
  {
    var tail := if line.note.Some? then ";" + line.note.value else "";
    var rs' := rs.(kind := Val, key := line.key, val := line.value);
    var next := pos + |Render(line)| + 1;
    assert Render(line) == Escape(line.key) + "=" + Escape(line.value) + tail;
    assert ScanLine(rs, src, pos) == LineResult(rs', next, Ok(true)) by {
      ScanPairLine(rs, src, pos, line.key, line.value, tail);
    }
    assert LineDoc(doc, rs.section, line) == Commit(doc, rs'.section, rs'.key, rs'.val);
    assert ReadState(Key, LineSection(rs.section, line), "", "") == rs'.(kind := Key, key := "", val := "");
    LoadCommit(doc, rs, src, pos, rs', next);
  }

  /** A bare key is stored with the empty value in the current section. */
  lemma {:induction false} LoadBareKeyLine(doc: Document, rs: ReadState, src: seq<char>, pos: nat, line: Line)
    requires line.BareKey? && WellFormed(line) && rs.key == "" && rs.val == "" && LineAt(src, pos, line)
    ensures LoadsLine(doc, rs, src, pos, line)
  {
    ScanBareKeyLine(rs, src, pos, line.key);
    LoadCommit(doc, rs, src, pos, rs.(kind := Key, key := line.key), pos + |Render(line)| + 1);
  }

  /** An unterminated header changes the current section and stores nothing. */
  lemma {:induction false} LoadOpenHeaderLine(doc: Document, rs: ReadState, src: seq<char>, pos: nat, line: Line)
    requires line.OpenHeader? && WellFormed(line) && rs.key == "" && rs.val == "" && LineAt(src, pos, line)
    ensures LoadsLine(doc, rs, src, pos, line)
  {
    ScanOpenHeaderLine(rs, src, pos, line.name);
    LoadHeaderMode(doc, rs, src, pos, rs.(kind := Section, section := line.name), pos + |Render(line)| + 1);
  }

  /** A comment line or a blank line stores nothing. */
  lemma {:induction false} LoadQuietLine(doc: Document, rs: ReadState, src: seq<char>, pos: nat, line: Line)
    requires (line.Remark? || line.Blank?) && WellFormed(line) && rs.key == "" && rs.val == "" && LineAt(src, pos, line)
    ensures LoadsLine(doc, rs, src, pos, line)
  {
    ScanQuietLine(rs, src, pos, line);
    LoadSkip(doc, rs, src, pos, rs.(kind := Key), pos + |Render(line)| + 1);
  }

  /** Loading one well-formed line, from a state whose key and value buffers
      are empty, applies that line and leaves the buffers empty again. */
  lemma {:induction false} LoadLine(doc: Document, rs: ReadState, src: seq<char>, pos: nat, line: Line)
    requires WellFormed(line) && rs.key == "" && rs.val == "" && LineAt(src, pos, line)
    ensures LoadsLine(doc, rs, src, pos, line)
  {
    if line.Header? {
      LoadHeaderLine(doc, rs, src, pos, line);
    } else if line.OpenHeader? {
      LoadOpenHeaderLine(doc, rs, src, pos, line);
    } else if line.BareKey? {
      LoadBareKeyLine(doc, rs, src, pos, line);
    } else if line.Pair? {
      LoadPairLine(doc, rs, src, pos, line);
    } else {
      LoadQuietLine(doc, rs, src, pos, line);
    }
  }

  /** The first of several rendered lines, and the rest after its newline. */
  lemma {:induction false} RenderedHead(src: seq<char>, pos: nat, lines: seq<Line>)
    requires lines != [] && pos <= |src| && src[pos..] == RenderAll(lines)
    ensures LineAt(src, pos, lines[0])
    ensures src[pos + |Render(lines[0])| + 1..] == RenderAll(lines[1..])
  {
    var r := Render(lines[0]);
    var end := pos + |r|;
    assert RenderAll(lines) == r + "\n" + RenderAll(lines[1..]);
    assert src[pos..end] == r by { assert src[pos..end] == RenderAll(lines)[..|r|]; }
    assert src[end] == '\n' by { assert src[end] == RenderAll(lines)[|r|]; }
    assert src[end + 1..] == RenderAll(lines)[|r| + 1..];
  }

  /** Loading the first of several rendered lines goes on after its newline
      with that line applied. */
  lemma {:induction false} LoadFirstLine(doc: Document, rs: ReadState, src: seq<char>, pos: nat, lines: seq<Line>)
    requires lines != [] && pos <= |src| && src[pos..] == RenderAll(lines)
    requires WellFormed(lines[0]) && rs.key == "" && rs.val == ""
    ensures pos + |Render(lines[0])| + 1 <= |src|
    ensures src[pos + |Render(lines[0])| + 1..] == RenderAll(lines[1..])
    ensures LoadFrom(doc, rs, src, pos)
         == LoadFrom(LineDoc(doc, rs.section, lines[0]), ReadState(Key, LineSection(rs.section, lines[0]), "", ""),
                     src, pos + |Render(lines[0])| + 1)
  {
    RenderedHead(src, pos, lines);
    LoadLine(doc, rs, src, pos, lines[0]);
  }

  /** Loading the text of well-formed lines, from a state whose key and value
      buffers are empty, finishes without error and yields the document the
      lines describe, with the current section carried across lines. */
  lemma {:induction false} LoadRendered(doc: Document, rs: ReadState, src: seq<char>, pos: nat, lines: seq<Line>)
    requires pos <= |src| && src[pos..] == RenderAll(lines)
    requires rs.key == "" && rs.val == ""
    requires forall l | l in lines :: WellFormed(l)
    ensures LoadFrom(doc, rs, src, pos).status == Ok(())
    ensures LoadFrom(doc, rs, src, pos).doc == Interpret(doc, rs.section, lines)
    decreases |lines|
  {
    if lines == [] {
      assert |src[pos..]| == 0;
    } else {
      var line := lines[0];
      var next := pos + |Render(line)| + 1;
      var doc1 := LineDoc(doc, rs.section, line);
      var rs1 := ReadState(Key, LineSection(rs.section, line), "", "");
      assert WellFormed(line) by { assert line in lines; }
      assert next <= |src| && src[next..] == RenderAll(lines[1..])
          && LoadFrom(doc, rs, src, pos) == LoadFrom(doc1, rs1, src, next) by {
        LoadFirstLine(doc, rs, src, pos, lines);
      }
      assert Interpret(doc, rs.section, lines) == Interpret(doc1, rs1.section, lines[1..]);
      assert LoadFrom(doc1, rs1, src, next).status == Ok(())
          && LoadFrom(doc1, rs1, src, next).doc == Interpret(doc1, rs1.section, lines[1..]) by {
        forall l | l in lines[1..] ensures WellFormed(l) {
          assert l in lines;
        }
        LoadRendered(doc1, rs1, src, next, lines[1..]);
      }
    }
  }


  /** The text of any well-formed document parses to the document its lines
      describe; pairs before the first header go to the default section. */
  lemma {:induction false} ParseRendered(lines: seq<Line>)
    requires forall l | l in lines :: WellFormed(l)
    ensures Parse(RenderAll(lines)) == Ok(Interpret(map[], DefaultSection, lines))
  {
    var src := RenderAll(lines);
    assert src[0..] == src;
    LoadRendered(map[], InitialReadState, src, 0, lines);
  }
}
