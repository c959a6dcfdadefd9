/** The `INIparser` class (INIparser.h:11-67): the sections map and the read
    state are fields that `ReadLine` and `Load` update in place; `Get`,
    `GetFrom` and `GetVal` are the lookups. The input file is a character
    sequence; a file that fails to open is an absent source. */
module IniParser {
  import opened IniTypes
  import opened IniScanner
  import opened IniDocument

  class Parser {
    /** `m_sections`: section name to (key to value). */
    var sections: Document
    /** `m_read_state`: token kind and the section, key and value buffers. */
    var readState: ReadState

    /** No key or value holds a blank and every key is non-empty, in the
        sections and in the buffers alike. */
    ghost predicate Valid()
      reads this
    {
      CleanDocument(sections) && CleanState(readState)
    }

    constructor ()
      ensures Valid()
      ensures sections == map[] && readState == InitialReadState
    {
      sections := map[];
      readState := InitialReadState;
    }

    /** `readLine`: scans one line of src from pos. On return, next is the
        position after the last character consumed; outcome is the return
        value (something to commit) or the error thrown. */
    method ReadLine(src: seq<char>, pos: nat) returns (outcome: Result<bool>, next: nat)
      requires pos <= |src|
      modifies this`readState
      ensures LineResult(readState, next, outcome) == ScanLine(old(readState), src, pos)
    {
      var escape := false;
      var read := false;
      var first := true;
      readState := readState.(kind := Key);
      var i := pos;
      while i < |src| && src[i] != '\n'
        invariant pos <= i <= |src|
        invariant ScanFrom(LineState(readState, escape, read, first), src, i) == ScanLine(old(readState), src, pos)
        decreases |src| - i
      {
        var c := src[i];
        i := i + 1;
        if c == '\t' || c == FormFeed || c == '\r' || c == VerticalTab {
          continue;
        }
        if readState.kind != Section && c == ' ' {
          continue;
        }
        if c == ';' && !escape {
          next := SkipLine(src, i);
          outcome := Ok(readState.key != "" && readState.val != "");
          return;
        }
        read := true;
        if c == '=' && !escape {
          if readState.key == "" {
            outcome, next := Err(InvalidToken(EmptyKeyReason)), i;
            return;
          }
          readState := readState.(kind := Val);
          continue;
        }
        if c == '[' && !escape {
          if !first {
            outcome, next := Err(InvalidToken(MisplacedBracketReason)), i;
            return;
          }
          readState := readState.(section := "");
          readState := readState.(kind := Section);
          continue;
        }
        first := false;
        if c == ']' && !escape {
          if readState.kind != Section {
            outcome, next := Err(InvalidToken(UnexpectedBracketReason)), i;
            return;
          }
          if readState.section == "" {
            outcome, next := Err(InvalidToken(EmptySectionReason)), i;
            return;
          }
          outcome, next := Ok(false), i;
          return;
        }
        if c == '\\' {
          if escape {
            readState := AppendText(readState, "\\");
            escape := false;
          } else {
            escape := true;
          }
          continue;
        }
        escape := false;
        readState := AppendText(readState, [c]);
      }
      next := if i < |src| then i + 1 else i;
      if read && readState.kind != Section && readState.key == "" && readState.val == "" {
        outcome := Err(IncompleteLine);
        return;
      }
      outcome := Ok(read);
    }

    /** `load`: an absent source throws before anything changes; otherwise
        the old sections are dropped and the whole source is scanned, line
        by line, committing each completed pair. On an error the sections
        hold what was committed before it. */
    method Load(source: Option<seq<char>>) returns (status: Result<()>)
      modifies this
      ensures source.Some? || old(Valid()) ==> Valid()
      ensures source.None? ==> status == Err(SourceUnavailable) && sections == old(sections) && readState == old(readState)
      ensures source.Some? ==> Run(sections, readState, status) == LoadSource(source.value)
    {
      if source.None? {
        return Err(SourceUnavailable);
      }
      var src := source.value;
      sections := map[];
      readState := InitialReadState;
      var pos := 0;
      while pos < |src|
        invariant pos <= |src|
        invariant LoadFrom(sections, readState, src, pos) == LoadSource(src)
        decreases |src| - pos
      {
        var outcome, next := ReadLine(src, pos);
        if outcome.Err? {
          return Err(outcome.error);
        }
        pos := next;
        if !outcome.value {
          continue;
        }
        if readState.kind != Section {
          var inner := if readState.section in sections then sections[readState.section] else map[];
          sections := sections[readState.section := inner[readState.key := readState.val]];
        }
        readState := readState.(key := "", val := "");
        readState := readState.(kind := Key);
      }
      status := Ok(());
    }

    /** `getVal`: the value stored under section and key, or which of the
        two is missing. */
    function GetVal(section: string, key: string): (r: Result<string>)
      reads this
      ensures r.Ok? <==> section in sections && key in sections[section]
      ensures r.Ok? ==> r.value == sections[section][key]
      ensures r == Err(SectionNotFound) <==> section !in sections
      ensures r == Err(KeyNotFound) <==> section in sections && key !in sections[section]
    {
      if section !in sections then Err(SectionNotFound)
      else if key !in sections[section] then Err(KeyNotFound)
      else Ok(sections[section][key])
    }

    /** `get(key)`: a lookup in the default section. */
    function Get(key: string): (r: Result<string>)
      reads this
      ensures r == GetVal(DefaultSection, key)
    {
      GetVal(" ", key)
    }

    /** `get(section, key)`: a lookup in a named section. */
    function GetFrom(section: string, key: string): (r: Result<string>)
      reads this
      ensures r == GetVal(section, key)
    {
      GetVal(section, key)
    }
  }
}
