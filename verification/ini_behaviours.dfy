/** Consequences of the scanner and the load loop for particular shapes of
    input: how blanks, repeated `=`, brackets, dangling keys and trailing
    backslashes are treated (INIparser.h:101-178 and 86-98). */
module IniBehaviours {
  import opened IniTypes
  import opened IniScanner
  import opened IniDocument
  import opened IniRoundTrip

  /** The text with every space and tab-like character removed. */
  function Strip(s: string): (r: string)
    ensures forall i :: 0 <= i < |r| ==> r[i] != ' ' && !IsIgnored(r[i])
    decreases |s|
  {
    if s == [] then []
    else if s[0] == ' ' || IsIgnored(s[0]) then Strip(s[1..])
    else [s[0]] + Strip(s[1..])
  }

  /** Only an unescaped `[` switches the scanner into header mode. */
  lemma {:induction false} StepEntersHeader(ls: LineState, c: char)
    requires Step(ls, c).Next? && ls.rs.kind != Section
    ensures Step(ls, c).ls.rs.kind == Section ==> c == '[' && !ls.escape
  {
  }

  /** A character after which `first` is still set appended nothing and
      was no backslash; if it was an unescaped `[`, the section buffer is
      empty. */
  lemma {:induction false} StepKeepsFirst(ls: LineState, c: char)
    requires Step(ls, c).Next? && Step(ls, c).ls.first
    ensures ls.first && Step(ls, c).ls.escape == ls.escape && c != '\\'
    ensures Step(ls, c).ls.rs.key == ls.rs.key && Step(ls, c).ls.rs.val == ls.rs.val
    ensures Step(ls, c).ls.rs.section in {ls.rs.section, ""}
    ensures c == '[' && !ls.escape ==> Step(ls, c).ls.rs.section == ""
  {
  }

  /** Once `first` is cleared, no character of the line sets it again. */
  lemma {:induction false} FirstStaysCleared(ls: LineState, s: string, ls': LineState)
    requires Steps(ls, s) == Some(ls') && !ls.first
    ensures !ls'.first
    decreases |s|
  {
    if s != [] {
      match Step(ls, s[0])
      case Next(ls1) =>
        if ls1.first {
          StepKeepsFirst(ls, s[0]);
        }
        FirstStaysCleared(ls1, s[1..], ls');
      case _ =>
    }
  }

  /** Outside a section header, spaces and tab-like characters have no
      effect wherever they stand: `greeting = hello world` scans exactly as
      `greeting=helloworld` does. */
  lemma {:induction false} StepsDropBlanks(ls: LineState, s: string)
    requires ls.rs.kind != Section
    requires forall i :: 0 <= i < |s| ==> s[i] != '['
    ensures Steps(ls, s) == Steps(ls, Strip(s))
    decreases |s|
  {
    if s != [] {
      var c := s[0];
      assert forall i :: 0 <= i < |s[1..]| ==> s[1..][i] != '[' by {
        assert forall i :: 0 <= i < |s[1..]| ==> s[1..][i] == s[i + 1];
      }
      if c == ' ' || IsIgnored(c) {
        assert Step(ls, c) == Next(ls);
        StepsDropBlanks(ls, s[1..]);
      } else {
        var t := Strip(s[1..]);
        assert Strip(s) == [c] + t;
        assert ([c] + t)[0] == c && ([c] + t)[1..] == t;
        match Step(ls, c)
        case Next(ls') =>
          StepEntersHeader(ls, c);
          StepsDropBlanks(ls', s[1..]);
        case _ =>
      }
    }
  }

  /** While `first` is still set, the line has appended nothing to the key
      or value buffer and read no backslash, and the section buffer is the
      one the line started with or, after an unescaped `[`, empty: so `[` is
      accepted only before any text. */
  lemma {:induction false} FirstBeforeText(ls: LineState, s: string, ls': LineState)
    requires Steps(ls, s) == Some(ls') && ls'.first
    ensures ls.first && ls'.escape == ls.escape && '\\' !in s
    ensures ls'.rs.key == ls.rs.key && ls'.rs.val == ls.rs.val
    ensures ls'.rs.section in {ls.rs.section, ""}
    ensures '[' in s && !ls.escape ==> ls'.rs.section == ""
    decreases |s|
  {
    if s != [] {
      assert s == [s[0]] + s[1..];
      match Step(ls, s[0])
      case Next(ls1) =>
        if !ls1.first {
          FirstStaysCleared(ls1, s[1..], ls');
        }
        FirstBeforeText(ls1, s[1..], ls');
        StepKeepsFirst(ls, s[0]);
      case _ =>
    }
  }

  /** Conversely, `first` survives tab-like characters, unescaped `[`, `=`
      after a key left in its buffer, and spaces before any `[`: so after
      such a prefix `[` is still accepted. */
  lemma {:induction false} FirstSurvives(ls: LineState, s: string)
    requires ls.first && !ls.escape
    requires forall i | 0 <= i < |s| ::
               || IsIgnored(s[i]) || s[i] == '['
               || (s[i] == '=' && ls.rs.key != "")
               || (s[i] == ' ' && ls.rs.kind != Section && '[' !in s[..i])
    ensures Steps(ls, s).Some? && Steps(ls, s).value.first && !Steps(ls, s).value.escape
    ensures Steps(ls, s).value.rs.key == ls.rs.key
    decreases |s|
  {
    if s != [] {
      var c := s[0];
      assert IsIgnored(c) || c == '[' || (c == '=' && ls.rs.key != "") || (c == ' ' && ls.rs.kind != Section);
      var ls1 := Step(ls, c).ls;
      assert Step(ls, c).Next? && ls1.first && !ls1.escape && ls1.rs.key == ls.rs.key;
      var t := s[1..];
      forall i | 0 <= i < |t|
        ensures || IsIgnored(t[i]) || t[i] == '['
                || (t[i] == '=' && ls1.rs.key != "")
                || (t[i] == ' ' && ls1.rs.kind != Section && '[' !in t[..i])
      {
        assert t[i] == s[i + 1];
        assert s[..i + 1] == [c] + t[..i];
        if t[i] == ' ' && !IsIgnored(t[i]) {
          assert '[' !in s[..i + 1];
        }
      }
      FirstSurvives(ls1, t);
    }
  }

  /** A doubled opening bracket acts as one: `[[abc]` names section `abc`. */
  lemma {:induction false} DoubledBracket(rs: ReadState, t: string)
    ensures Steps(LineStart(rs), "[[" + t) == Steps(LineStart(rs), "[" + t)
  {
    var ls0 := LineStart(rs);
    var ls1 := ls0.(rs := ls0.rs.(section := "", kind := Section), read := true);
    assert Step(ls0, '[') == Next(ls1);
    assert Step(ls1, '[') == Next(ls1);
    assert Steps(ls1, "[") == Some(ls1);
    StepsConcat(ls0, "[", "[");
    StepsConcat(ls0, "[[", t);
    StepsConcat(ls0, "[", t);
    assert "[[" + t == "[" + "[" + t;
  }

  /** Every `=` after the first is dropped: `key=v1=v2` stores `v1v2`. */
  lemma {:induction false} RepeatedEquals(rs: ReadState, key: string, v1: string, v2: string)
    requires key != "" && NoBlanks(key) && NoBlanks(v1) && NoBlanks(v2) && rs.key == "" && rs.val == ""
    ensures Steps(LineStart(rs), Escape(key) + "=" + Escape(v1) + "=" + Escape(v2))
         == Some(LineState(rs.(kind := Val, key := key, val := v1 + v2), false, true, false))
  {
    var ls0 := LineStart(rs);
    var ls3 := LineState(rs.(kind := Val, key := key, val := v1), false, true, false);
    StepsAssignment(rs, key, v1);
    assert Step(ls3, '=') == Next(ls3);
    assert Steps(ls3, "=") == Some(ls3);
    StepsEscaped(ls3, v2);
    assert AfterText(ls3, v2) == LineState(rs.(kind := Val, key := key, val := v1 + v2), false, true, false);
    StepsConcat(ls0, Escape(key) + "=" + Escape(v1), "=");
    StepsConcat(ls0, Escape(key) + "=" + Escape(v1) + "=", Escape(v2));
  }

  /** `=` and an escaped value, read while a key is left over in the
      buffer, switch to value mode and fill the value buffer. */
  lemma {:induction false} StepsValue(rs: ReadState, value: string)
    requires rs.key != "" && rs.val == "" && NoBlanks(value)
    ensures Steps(LineStart(rs), "=" + Escape(value))
         == Some(LineState(rs.(kind := Val, val := value), false, true, value == ""))
  {
    var ls0 := LineStart(rs);
    var ls1 := ls0.(rs := rs.(kind := Val), read := true);
    assert Step(ls0, '=') == Next(ls1);
    assert Steps(ls0, "=") == Some(ls1);
    StepsEscaped(ls1, value);
    StepsConcat(ls0, "=", Escape(value));
    assert AfterText(ls1, value) == LineState(rs.(kind := Val, val := value), false, true, value == "");
  }

  /** A line holding only `=` and a value, read while a key is left over in
      the buffer, completes the pair with that key. */
  lemma {:induction false} ScanValueLine(rs: ReadState, src: seq<char>, pos: nat, value: string)
    requires rs.key != "" && rs.val == "" && NoBlanks(value)
    requires pos + 1 + |Escape(value)| < |src| && src[pos..pos + 1 + |Escape(value)|] == "=" + Escape(value)
    requires src[pos + 1 + |Escape(value)|] == '\n'
    ensures ScanLine(rs, src, pos)
         == LineResult(rs.(kind := Val, val := value), pos + 2 + |Escape(value)|, Ok(true))
  {
    StepsValue(rs, value);
    BlanksHaveNoNewline(value);
    EscapeNoNewline(value);
    ConsNoNewline('=', Escape(value));
    ScanLineThrough(rs, src, pos, "=" + Escape(value), LineState(rs.(kind := Val, val := value), false, true, value == ""));
  }


  /** A key followed by a comment: the line commits nothing, and the key
      stays in its buffer. */
  lemma {:induction false} ScanKeyComment(rs: ReadState, src: seq<char>, pos: nat, key: string, note: string)
    requires key != "" && NoBlanks(key) && NoNewline(note) && rs.key == "" && rs.val == ""
    requires pos + |Escape(key)| + 1 + |note| < |src|
    requires src[pos..pos + |Escape(key)|] == Escape(key)
    requires src[pos + |Escape(key)|..pos + |Escape(key)| + 1 + |note|] == ";" + note
    requires src[pos + |Escape(key)| + 1 + |note|] == '\n'
    ensures ScanLine(rs, src, pos)
         == LineResult(rs.(kind := Key, key := key), pos + |Escape(key)| + 2 + |note|, Ok(false))
  {
    var ls1 := LineState(rs.(kind := Key, key := key), false, true, false);
    var j := pos + |Escape(key)|;
    assert ScanFrom(ls1, src, j) == LineResult(ls1.rs, j + 1 + |note| + 1, Ok(false)) by {
      ScanComment(ls1, src, j, note);
    }
    ScanKey(rs, src, pos, key);
  }

  /** A line `key;comment` stores nothing and leaves the key in its buffer. */
  lemma {:induction false} LoadKeyCommentLine(doc: Document, rs: ReadState, src: seq<char>, pos: nat,
                                              key: string, note: string)
    requires key != "" && NoBlanks(key) && NoNewline(note) && rs.key == "" && rs.val == ""
    requires pos + |Escape(key)| + 1 + |note| < |src|
    requires src[pos..pos + |Escape(key)|] == Escape(key)
    requires src[pos + |Escape(key)|..pos + |Escape(key)| + 1 + |note|] == ";" + note
    requires src[pos + |Escape(key)| + 1 + |note|] == '\n'
    ensures LoadFrom(doc, rs, src, pos)
         == LoadFrom(doc, rs.(kind := Key, key := key), src, pos + |Escape(key)| + 2 + |note|)
  {
    ScanKeyComment(rs, src, pos, key, note);
    LoadSkip(doc, rs, src, pos, rs.(kind := Key, key := key), pos + |Escape(key)| + 2 + |note|);
  }

  /** A line `=value` read while a key is left over stores that key with
      the value. */
  lemma {:induction false} LoadValueLine(doc: Document, rs: ReadState, src: seq<char>, pos: nat, value: string)
    requires rs.key != "" && rs.val == "" && NoBlanks(value)
    requires pos + 1 + |Escape(value)| < |src| && src[pos..pos + 1 + |Escape(value)|] == "=" + Escape(value)
    requires src[pos + 1 + |Escape(value)|] == '\n'
    ensures LoadFrom(doc, rs, src, pos)
         == LoadFrom(Commit(doc, rs.section, rs.key, value), rs.(kind := Key, key := ""),
                     src, pos + 2 + |Escape(value)|)
  {
    ScanValueLine(rs, src, pos, value);
    LoadCommit(doc, rs, src, pos, rs.(kind := Val, val := value), pos + 2 + |Escape(value)|);
  }

  /** A key followed by a comment commits nothing, but the key stays in its
      buffer (the load loop clears the buffers only after a commit), so a
      following line `=value` stores the pair: `a ;` then `=1` gives a=1. */
  lemma {:induction false} DanglingKeyCarriesOver(doc: Document, rs: ReadState, src: seq<char>, pos: nat,
                               key: string, note: string, value: string)
    requires key != "" && NoBlanks(key) && NoNewline(note) && NoBlanks(value)
    requires rs.key == "" && rs.val == ""
    requires pos + |Escape(key)| + 1 + |note| < |src|
    requires src[pos..pos + |Escape(key)|] == Escape(key)
    requires src[pos + |Escape(key)|..pos + |Escape(key)| + 1 + |note|] == ";" + note
    requires src[pos + |Escape(key)| + 1 + |note|] == '\n'
    requires pos + |Escape(key)| + 2 + |note| + 1 + |Escape(value)| < |src|
    requires src[pos + |Escape(key)| + 2 + |note|..pos + |Escape(key)| + 2 + |note| + 1 + |Escape(value)|]
          == "=" + Escape(value)
    requires src[pos + |Escape(key)| + 2 + |note| + 1 + |Escape(value)|] == '\n'
    ensures LoadFrom(doc, rs, src, pos)
         == LoadFrom(Commit(doc, rs.section, key, value), rs.(kind := Key),
                     src, pos + |Escape(key)| + 2 + |note| + 2 + |Escape(value)|)
  {
    var next := pos + |Escape(key)| + 2 + |note|;
    var end := next + 2 + |Escape(value)|;
    var rs1 := rs.(kind := Key, key := key);
    assert rs1.(kind := Key, key := "") == rs.(kind := Key);
    assert LoadFrom(doc, rs1, src, next) == LoadFrom(Commit(doc, rs.section, key, value), rs.(kind := Key), src, end) by {
      LoadValueLine(doc, rs1, src, next, value);
    }
    assert LoadFrom(doc, rs, src, pos) == LoadFrom(doc, rs1, src, next) by {
      LoadKeyCommentLine(doc, rs, src, pos, key, note);
    }
  }


  /** Escaped key text and `=` fill the key buffer and switch to value mode. */
  lemma {:induction false} StepsKeyEquals(rs: ReadState, key: string)
    requires key != "" && NoBlanks(key) && rs.key == "" && rs.val == ""
    ensures Steps(LineStart(rs), Escape(key) + "=")
         == Some(LineState(rs.(kind := Val, key := key), false, true, false))
  {
    var ls0 := LineStart(rs);
    var ls1 := LineState(rs.(kind := Key, key := key), false, true, false);
    StepsEscaped(ls0, key);
    assert AfterText(ls0, key) == ls1;
    assert Step(ls1, '=') == Next(ls1.(rs := ls1.rs.(kind := Val)));
    assert Steps(ls1, "=") == Some(ls1.(rs := ls1.rs.(kind := Val)));
    StepsConcat(ls0, Escape(key), "=");
  }

  lemma {:induction false} KeyEqualsNoNewline(key: string)
    requires NoBlanks(key)
    ensures NoNewline(Escape(key) + "=")
  {
    BlanksHaveNoNewline(key);
    EscapeNoNewline(key);
    assert forall m | 0 <= m < |Escape(key)| :: (Escape(key) + "=")[m] == Escape(key)[m];
  }

  /** `key=;comment`: the comment starts with a key but no value, so the
      call returns false and leaves the key in its buffer. */
  lemma {:induction false} ScanEmptyValueComment(rs: ReadState, src: seq<char>, pos: nat, key: string, note: string)
    requires key != "" && NoBlanks(key) && NoNewline(note) && rs.key == "" && rs.val == ""
    requires pos + |Escape(key)| + 1 + 1 + |note| < |src|
    requires src[pos..pos + |Escape(key)| + 1] == Escape(key) + "="
    requires src[pos + |Escape(key)| + 1..pos + |Escape(key)| + 1 + 1 + |note|] == ";" + note
    requires src[pos + |Escape(key)| + 1 + 1 + |note|] == '\n'
    ensures ScanLine(rs, src, pos)
         == LineResult(rs.(kind := Val, key := key), pos + |Escape(key)| + 1 + 2 + |note|, Ok(false))
  {
    var text := Escape(key) + "=";
    var ls1 := LineState(rs.(kind := Val, key := key), false, true, false);
    assert Steps(LineStart(rs), text) == Some(ls1) by {
      StepsKeyEquals(rs, key);
    }
    assert NoNewline(text) by {
      KeyEqualsNoNewline(key);
    }
    ScanTextThenComment(rs, src, pos, text, ls1, pos + |Escape(key)| + 1, note);
  }

  /** `key=;` stores nothing: the key stays in its buffer. */
  lemma {:induction false} EmptyValueComment(doc: Document, rs: ReadState, src: seq<char>, pos: nat, key: string, note: string)
    requires key != "" && NoBlanks(key) && NoNewline(note) && rs.key == "" && rs.val == ""
    requires pos + |Escape(key)| + 1 + 1 + |note| < |src|
    requires src[pos..pos + |Escape(key)| + 1] == Escape(key) + "="
    requires src[pos + |Escape(key)| + 1..pos + |Escape(key)| + 1 + 1 + |note|] == ";" + note
    requires src[pos + |Escape(key)| + 1 + 1 + |note|] == '\n'
    ensures LoadFrom(doc, rs, src, pos)
         == LoadFrom(doc, rs.(kind := Val, key := key), src, pos + |Escape(key)| + 1 + 2 + |note|)
  {
    ScanEmptyValueComment(rs, src, pos, key, note);
    LoadSkip(doc, rs, src, pos, rs.(kind := Val, key := key), pos + |Escape(key)| + 1 + 2 + |note|);
  }



  /** A header, with or without more text after its closing bracket, makes
      its name the current section and stores nothing. */
  lemma {:induction false} LoadHeaderOnly(doc: Document, rs: ReadState, src: seq<char>, pos: nat, name: string)
    requires name != "" && HeaderText(name)
    requires pos + |Render(Header(name))| <= |src|
    requires src[pos..pos + |Render(Header(name))|] == Render(Header(name))
    ensures LoadFrom(doc, rs, src, pos)
         == LoadFrom(doc, rs.(kind := Section, section := name), src, pos + |Render(Header(name))|)
  {
    ScanHeaderLine(rs, src, pos, name);
    LoadSkip(doc, rs, src, pos, rs.(kind := Section, section := name), pos + |Render(Header(name))|);
  }

  /** A line `key=value` stores the pair in the current section and
      clears the key and value buffers. */
  lemma {:induction false} LoadAssignmentLine(doc: Document, rs: ReadState, src: seq<char>, pos: nat,
                                              key: string, value: string)
    requires key != "" && NoBlanks(key) && NoBlanks(value) && rs.key == "" && rs.val == ""
    requires pos + |Escape(key) + "=" + Escape(value)| < |src|
    requires src[pos..pos + |Escape(key) + "=" + Escape(value)|] == Escape(key) + "=" + Escape(value)
    requires src[pos + |Escape(key) + "=" + Escape(value)|] == '\n'
    ensures LoadFrom(doc, rs, src, pos)
         == LoadFrom(Commit(doc, rs.section, key, value), rs.(kind := Key),
                     src, pos + |Escape(key) + "=" + Escape(value)| + 1)
  {
    var j := pos + |Escape(key) + "=" + Escape(value)|;
    var ls3 := LineState(rs.(kind := Val, key := key, val := value), false, true, false);
    ScanAssignment(rs, src, pos, key, value);
    assert ScanFrom(ls3, src, j) == LineResult(ls3.rs, j + 1, Ok(true));
    LoadCommit(doc, rs, src, pos, ls3.rs, j + 1);
  }

  /** After `]` the scanner returns at once and the rest of the physical
      line is read as a new line: `[s]x=1` stores x=1 in section s. */
  lemma {:induction false} HeaderThenPair(doc: Document, rs: ReadState, src: seq<char>, pos: nat,
                       name: string, key: string, value: string)
    requires name != "" && HeaderText(name) && key != "" && NoBlanks(key) && NoBlanks(value)
    requires rs.key == "" && rs.val == ""
    requires pos + |Render(Header(name))| + |Escape(key) + "=" + Escape(value)| < |src|
    requires src[pos..pos + |Render(Header(name))|] == Render(Header(name))
    requires src[pos + |Render(Header(name))|..pos + |Render(Header(name))| + |Escape(key) + "=" + Escape(value)|]
          == Escape(key) + "=" + Escape(value)
    requires src[pos + |Render(Header(name))| + |Escape(key) + "=" + Escape(value)|] == '\n'
    ensures LoadFrom(doc, rs, src, pos)
         == LoadFrom(Commit(doc, name, key, value), ReadState(Key, name, "", ""),
                     src, pos + |Render(Header(name))| + |Escape(key) + "=" + Escape(value)| + 1)
  {
    var h := pos + |Render(Header(name))|;
    var e := h + |Escape(key) + "=" + Escape(value)| + 1;
    var rs1 := rs.(kind := Section, section := name);
    assert rs1.(kind := Key) == ReadState(Key, name, "", "");
    assert LoadFrom(doc, rs1, src, h) == LoadFrom(Commit(doc, rs1.section, key, value), rs1.(kind := Key), src, e) by {
      LoadAssignmentLine(doc, rs1, src, h, key, value);
    }
    assert LoadFrom(doc, rs, src, pos) == LoadFrom(doc, rs1, src, h) by {
      LoadHeaderOnly(doc, rs, src, pos, name);
    }
  }

  /** `[]` throws: a section name cannot be empty. Nothing more is stored. */
  lemma {:induction false} EmptySectionFails(doc: Document, rs: ReadState, src: seq<char>, pos: nat)
    requires pos + 1 < |src| && src[pos] == '[' && src[pos + 1] == ']'
    ensures LoadFrom(doc, rs, src, pos)
         == Run(doc, rs.(kind := Section, section := ""), Err(InvalidToken(EmptySectionReason)))
  {
    var ls0 := LineStart(rs);
    var ls1 := ls0.(rs := rs.(section := "", kind := Section), read := true);
    assert Step(ls0, '[') == Next(ls1);
    assert ScanFrom(ls0, src, pos) == ScanFrom(ls1, src, pos + 1);
    assert Step(ls1, ']') == Fail(InvalidToken(EmptySectionReason));
  }

  /** A `]` outside a header throws; the key read so far stays in its
      buffer and nothing more is stored. */
  lemma {:induction false} UnexpectedBracketFails(doc: Document, rs: ReadState, src: seq<char>, pos: nat, key: string)
    requires NoBlanks(key)
    requires pos + |Escape(key)| < |src| && src[pos..pos + |Escape(key)|] == Escape(key)
    requires src[pos + |Escape(key)|] == ']'
    ensures LoadFrom(doc, rs, src, pos)
         == Run(doc, rs.(kind := Key, key := rs.key + key), Err(InvalidToken(UnexpectedBracketReason)))
  {
    var ls1 := AfterText(LineStart(rs), key);
    ScanText(rs, src, pos, key);
    assert ls1.rs == rs.(kind := Key, key := rs.key + key) && !ls1.escape;
    assert Step(ls1, ']') == Fail(InvalidToken(UnexpectedBracketReason));
  }


  /** A `[` after any key text throws: it must open the line. */
  lemma {:induction false} MisplacedBracketFails(doc: Document, rs: ReadState, src: seq<char>, pos: nat, key: string)
    requires key != "" && NoBlanks(key)
    requires pos + |Escape(key)| < |src| && src[pos..pos + |Escape(key)|] == Escape(key)
    requires src[pos + |Escape(key)|] == '['
    ensures LoadFrom(doc, rs, src, pos)
         == Run(doc, rs.(kind := Key, key := rs.key + key), Err(InvalidToken(MisplacedBracketReason)))
  {
    var ls1 := AfterText(LineStart(rs), key);
    ScanText(rs, src, pos, key);
    assert ls1.rs == rs.(kind := Key, key := rs.key + key) && !ls1.escape && !ls1.first;
    assert Step(ls1, '[') == Fail(InvalidToken(MisplacedBracketReason));
  }


  /** An unpaired backslash at the end of a pair line adds nothing. */
  lemma {:induction false} TrailingBackslash(rs: ReadState, src: seq<char>, pos: nat, key: string, value: string)
    requires key != "" && NoBlanks(key) && NoBlanks(value) && rs.key == "" && rs.val == ""
    requires pos + |Escape(key) + "=" + Escape(value)| + 1 < |src|
    requires src[pos..pos + |Escape(key) + "=" + Escape(value)|] == Escape(key) + "=" + Escape(value)
    requires src[pos + |Escape(key) + "=" + Escape(value)|] == '\\'
    requires src[pos + |Escape(key) + "=" + Escape(value)| + 1] == '\n'
    ensures ScanLine(rs, src, pos)
         == LineResult(rs.(kind := Val, key := key, val := value), pos + |Escape(key) + "=" + Escape(value)| + 2, Ok(true))
  {
    var e := pos + |Escape(key) + "=" + Escape(value)|;
    ScanAssignment(rs, src, pos, key, value);
    var ls3 := LineState(rs.(kind := Val, key := key, val := value), false, true, false);
    assert Step(ls3, '\\') == Next(ls3.(escape := true));
    assert ScanFrom(ls3, src, e) == ScanFrom(ls3.(escape := true), src, e + 1);
  }

  /** A line holding a single backslash reads something but fills neither
      key nor value, and throws IncompleteLine. */
  lemma {:induction false} LoneBackslashFails(rs: ReadState, src: seq<char>, pos: nat)
    requires rs.key == "" && rs.val == ""
    requires pos + 1 < |src| && src[pos] == '\\' && src[pos + 1] == '\n'
    ensures ScanLine(rs, src, pos) == LineResult(rs.(kind := Key), pos + 2, Err(IncompleteLine))
  {
    var ls0 := LineStart(rs);
    var ls1 := ls0.(escape := true, read := true, first := false);
    assert Step(ls0, '\\') == Next(ls1);
    assert ScanFrom(ls0, src, pos) == ScanFrom(ls1, src, pos + 1);
  }
}
