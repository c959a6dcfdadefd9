/** Values shared by the scanner, the document store and the parser class:
    the error taxonomy, the token kinds, the read state that the scanner
    threads from line to line, and the character classes the scanner uses. */
module IniTypes {

  /** The exceptions the parser throws, as values. */
  datatype Error =
    | InvalidToken(reason: string)
    | IncompleteLine
    | SectionNotFound
    | KeyNotFound
    | SourceUnavailable

  datatype Result<T> = Ok(value: T) | Err(error: Error)

  datatype Option<T> = None | Some(value: T)

  /** Which of the three buffers the scanner is currently filling. */
  datatype TokenType = Section | Key | Val

  /** The parser's read state: the token kind and the three text buffers
      (current section name, key, value). */
  datatype ReadState = ReadState(kind: TokenType, section: string, key: string, val: string)

  type SectionMap = map<string, string>

  type Document = map<string, SectionMap>

  /** Name of the implicit section that holds pairs declared before any header. */
  const DefaultSection: string := " "

  /** State at the start of a load: default section, empty key and value. */
  const InitialReadState: ReadState := ReadState(Key, DefaultSection, "", "")

  const FormFeed: char := '\U{000C}'
  const VerticalTab: char := '\U{000B}'

  /** Characters the scanner drops wherever they appear. */
  predicate IsIgnored(c: char) {
    c == '\t' || c == FormFeed || c == '\r' || c == VerticalTab
  }

  /** Characters that can never be part of a key or a value. */
  predicate IsBlank(c: char) {
    IsIgnored(c) || c == ' ' || c == '\n'
  }

  predicate NoBlanks(s: string) {
    forall i {:trigger IsBlank(s[i])} :: 0 <= i < |s| ==> !IsBlank(s[i])
  }

  /** Text allowed in a section name: spaces are kept, nothing else blank. */
  predicate HeaderText(s: string) {
    forall i {:trigger InHeader(s[i])} :: 0 <= i < |s| ==> InHeader(s[i])
  }

  /** A character a section name may hold. */
  predicate InHeader(c: char) {
    !IsIgnored(c) && c != '\n'
  }

  /** The buffer selected by the current token kind. */
  function Buffer(rs: ReadState): string {
    match rs.kind
    case Section => rs.section
    case Key => rs.key
    case Val => rs.val
  }

  /** Appends text to the buffer selected by the current token kind. */
  function AppendText(rs: ReadState, t: string): (r: ReadState)
    ensures r.kind == rs.kind && Buffer(r) == Buffer(rs) + t
    ensures rs.kind != Section ==> r.section == rs.section
    ensures rs.kind != Key ==> r.key == rs.key
    ensures rs.kind != Val ==> r.val == rs.val
  {
    match rs.kind
    case Section => rs.(section := rs.section + t)
    case Key => rs.(key := rs.key + t)
    case Val => rs.(val := rs.val + t)
  }

  lemma {:induction false} AppendTextTwice(rs: ReadState, t: string, u: string)
    ensures AppendText(AppendText(rs, t), u) == AppendText(rs, t + u)
  {
    match rs.kind
    case Section => assert rs.section + t + u == rs.section + (t + u);
    case Key => assert rs.key + t + u == rs.key + (t + u);
    case Val => assert rs.val + t + u == rs.val + (t + u);
  }

  /** What holds of the read state between characters: no blank ever enters
      a key or a value, no tab-like character or newline enters a section
      name, and value mode (or a value) is only reached with a key. */
  predicate CleanState(rs: ReadState) {
    && NoBlanks(rs.key)
    && NoBlanks(rs.val)
    && HeaderText(rs.section)
    && (rs.val != "" ==> rs.key != "")
    && (rs.kind == Val ==> rs.key != "")
  }

  /** What holds of every document the parser builds: section names hold no
      tab-like character or newline, keys are non-empty, and neither keys nor
      values hold a blank. */
  predicate CleanDocument(doc: Document) {
    forall s | s in doc ::
      && HeaderText(s)
      && forall k | k in doc[s] :: k != "" && NoBlanks(k) && NoBlanks(doc[s][k])
  }
}
