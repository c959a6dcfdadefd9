/** Specification of `INIparser::load` (INIparser.h:77-99): the loop that
    calls the scanner line after line and commits each completed pair into
    the two-level map of sections. */
module IniDocument {
  import opened IniTypes
  import opened IniScanner

  /** The parser's state once a load ends: the sections, the read state and
      whether the load finished or threw. */
  datatype Run = Run(doc: Document, rs: ReadState, status: Result<()>)

  /** `m_sections[section][key] = value`: creates the section when missing,
      overwrites the key when present, and changes nothing else. */
  function Commit(doc: Document, section: string, key: string, value: string): (d: Document)
    ensures section in d && key in d[section] && d[section][key] == value
    ensures d.Keys == doc.Keys + {section}
    ensures forall s | s in doc && s != section :: d[s] == doc[s]
    ensures section in doc ==> d[section].Keys == doc[section].Keys + {key}
    ensures section in doc ==> forall k | k in doc[section] && k != key :: d[section][k] == doc[section][k]
    ensures section !in doc ==> d[section] == map[key := value]
  {
    var inner := if section in doc then doc[section] else map[];
    doc[section := inner[key := value]]
  }

  lemma {:induction false} CommitKeepsClean(doc: Document, section: string, key: string, value: string)
    requires CleanDocument(doc) && HeaderText(section)
    requires key != "" && NoBlanks(key) && NoBlanks(value)
    ensures CleanDocument(Commit(doc, section, key, value))
  {
    var d := Commit(doc, section, key, value);
    forall s | s in d
      ensures HeaderText(s)
      ensures forall k | k in d[s] :: k != "" && NoBlanks(k) && NoBlanks(d[s][k])
    {
      if s != section {
        assert d[s] == doc[s];
      }
    }
  }

  /** The load loop from position pos, with sections doc and read state rs
      (INIparser.h:86-98). */
  function LoadFrom(doc: Document, rs: ReadState, src: seq<char>, pos: nat): Run
    requires pos <= |src|
    decreases |src| - pos
  {
    if pos == |src| then Run(doc, rs, Ok(()))
    else
      var line := ScanLine(rs, src, pos);
      match line.outcome
      case Err(e) => Run(doc, line.rs, Err(e))
      case Ok(commit) =>
        if !commit then LoadFrom(doc, line.rs, src, line.next)
        else
          var doc' := if line.rs.kind != Section
                      then Commit(doc, line.rs.section, line.rs.key, line.rs.val)
                      else doc;
          LoadFrom(doc', line.rs.(key := "", val := "", kind := Key), src, line.next)
  }

  /** A load never removes a section or a key: entries are only added or
      overwritten. */
  lemma {:induction false} LoadKeepsEntries(doc: Document, rs: ReadState, src: seq<char>, pos: nat)
    requires pos <= |src|
    ensures var run := LoadFrom(doc, rs, src, pos);
            forall s | s in doc :: s in run.doc && doc[s].Keys <= run.doc[s].Keys
    decreases |src| - pos
  {
    if pos < |src| {
      var line := ScanLine(rs, src, pos);
      if line.outcome == Ok(false) {
        LoadKeepsEntries(doc, line.rs, src, line.next);
      } else if line.outcome == Ok(true) {
        var doc' := if line.rs.kind != Section
                    then Commit(doc, line.rs.section, line.rs.key, line.rs.val)
                    else doc;
        LoadKeepsEntries(doc', line.rs.(key := "", val := "", kind := Key), src, line.next);
      }
    }
  }

  /** From clean sections and a clean read state, a load keeps both clean:
      no key or value ever holds a blank and no key is empty. */
  lemma {:induction false} LoadKeepsClean(doc: Document, rs: ReadState, src: seq<char>, pos: nat)
    requires pos <= |src| && CleanDocument(doc) && CleanState(rs)
    ensures CleanDocument(LoadFrom(doc, rs, src, pos).doc)
    ensures CleanState(LoadFrom(doc, rs, src, pos).rs)
    decreases |src| - pos
  {
    if pos < |src| {
      var line := ScanLine(rs, src, pos);
      ScanKeepsClean(LineStart(rs), src, pos);
      if line.outcome == Ok(false) {
        LoadKeepsClean(doc, line.rs, src, line.next);
      } else if line.outcome == Ok(true) {
        var doc' := doc;
        if line.rs.kind != Section {
          CommitKeepsClean(doc, line.rs.section, line.rs.key, line.rs.val);
          doc' := Commit(doc, line.rs.section, line.rs.key, line.rs.val);
        }
        LoadKeepsClean(doc', line.rs.(key := "", val := "", kind := Key), src, line.next);
      }
    }
  }

  /** A line that commits nothing leaves the sections as they are. */
  lemma {:induction false} LoadSkip(doc: Document, rs: ReadState, src: seq<char>, pos: nat, rs': ReadState, next: nat)
    requires pos < |src| && ScanLine(rs, src, pos) == LineResult(rs', next, Ok(false))
    ensures LoadFrom(doc, rs, src, pos) == LoadFrom(doc, rs', src, next)
  {
  }

  /** A line for which the scanner returns true outside header mode stores
      its pair and clears the key and value buffers. */
  lemma {:induction false} LoadCommit(doc: Document, rs: ReadState, src: seq<char>, pos: nat, rs': ReadState, next: nat)
    requires pos < |src| && ScanLine(rs, src, pos) == LineResult(rs', next, Ok(true))
    requires rs'.kind != Section
    ensures LoadFrom(doc, rs, src, pos)
         == LoadFrom(Commit(doc, rs'.section, rs'.key, rs'.val), rs'.(kind := Key, key := "", val := ""), src, next)
  {
  }

  /** A line that ends in header mode with true (an unterminated header)
      stores nothing but still clears the key and value buffers. */
  lemma {:induction false} LoadHeaderMode(doc: Document, rs: ReadState, src: seq<char>, pos: nat, rs': ReadState, next: nat)
    requires pos < |src| && ScanLine(rs, src, pos) == LineResult(rs', next, Ok(true))
    requires rs'.kind == Section
    ensures LoadFrom(doc, rs, src, pos) == LoadFrom(doc, rs'.(kind := Key, key := "", val := ""), src, next)
  {
  }

  /** A whole load of an opened source (INIparser.h:83-98). */
  function LoadSource(src: seq<char>): (run: Run)
    ensures CleanDocument(run.doc) && CleanState(run.rs)
  {
    LoadKeepsClean(map[], InitialReadState, src, 0);
    LoadFrom(map[], InitialReadState, src, 0)
  }

  /** The document a source yields, or the error its load throws. */
  function Parse(src: seq<char>): (r: Result<Document>)
    ensures r.Ok? ==> CleanDocument(r.value)
    ensures r.Ok? <==> LoadSource(src).status.Ok?
  {
    var run := LoadSource(src);
    match run.status
    case Ok(_) => Ok(run.doc)
    case Err(e) => Err(e)
  }
}
