/** Specification of `INIparser::readLine` (INIparser.h:101-178): one call
    reads characters from a position in the input up to and including the
    next newline (or up to the first character that ends the call early),
    updating the read state, and reports whether the line yields something
    for `load` to commit. */
module IniScanner {
  import opened IniTypes

  /** The read state together with the three per-call flags of readLine. */
  datatype LineState = LineState(rs: ReadState, escape: bool, read: bool, first: bool)

  /** The effect of one character that is not a newline. */
  datatype StepResult =
    | Next(ls: LineState)   // keep scanning with the new state
    | Comment               // unescaped ';': the rest of the line is skipped
    | HeaderClosed          // legal unescaped ']': the call returns false at once
    | Fail(error: Error)    // the call throws

  /** What one call of readLine leaves behind: the read state, the position
      after the last character it consumed, and its return value or error. */
  datatype LineResult = LineResult(rs: ReadState, next: nat, outcome: Result<bool>)

  const EmptyKeyReason: string := "Key can't be empty"
  const MisplacedBracketReason: string := "'[' must be the first character in a line"
  const UnexpectedBracketReason: string := "Unexpected character: ']'"
  const EmptySectionReason: string := "Section name cannot be empty"

  /** The state every call starts from (INIparser.h:104-110). */
  function LineStart(rs: ReadState): LineState {
    LineState(rs.(kind := Key), false, false, true)
  }

  /** What holds of the scanner's state between characters. */
  predicate CleanLine(ls: LineState) {
    CleanState(ls.rs)
  }

  /** The effect of one non-newline character, in the order of the checks of
      INIparser.h:113-167. */
  function Step(ls: LineState, c: char): (r: StepResult)
    ensures r.Comment? <==> c == ';' && !ls.escape
    ensures r.HeaderClosed? <==> c == ']' && !ls.escape && ls.rs.kind == Section && ls.rs.section != ""
    ensures r.Fail? ==> !ls.escape && (c == '=' || c == '[' || c == ']') && r.error.InvalidToken?
    ensures c == '=' && !ls.escape ==> (r.Fail? <==> ls.rs.key == "")
    ensures c == '[' && !ls.escape ==> (r.Fail? <==> !ls.first)
    ensures c == ']' && !ls.escape ==> (r.Fail? <==> ls.rs.kind != Section || ls.rs.section == "")
    ensures r.Next? && r.ls.rs.section != ls.rs.section ==> r.ls.rs.kind == Section
  {
    if IsIgnored(c) then Next(ls)
    else if ls.rs.kind != Section && c == ' ' then Next(ls)
    else if c == ';' && !ls.escape then Comment
    else if c == '=' && !ls.escape then
      if ls.rs.key == "" then Fail(InvalidToken(EmptyKeyReason))
      else Next(ls.(rs := ls.rs.(kind := Val), read := true))
    else if c == '[' && !ls.escape then
      if !ls.first then Fail(InvalidToken(MisplacedBracketReason))
      else Next(ls.(rs := ls.rs.(section := "", kind := Section), read := true))
    else if c == ']' && !ls.escape then
      if ls.rs.kind != Section then Fail(InvalidToken(UnexpectedBracketReason))
      else if ls.rs.section == "" then Fail(InvalidToken(EmptySectionReason))
      else HeaderClosed
    else if c == '\\' then
      if ls.escape then Next(LineState(AppendText(ls.rs, "\\"), false, true, false))
      else Next(ls.(escape := true, read := true, first := false))
    else
      Next(LineState(AppendText(ls.rs, [c]), false, true, false))
  }

  /** Position after the next newline at or after j, or the end of the input
      (the `getline` that discards a comment). */
  function SkipLine(src: seq<char>, j: nat): (k: nat)
    requires j <= |src|
    ensures j <= k <= |src|
    ensures j < |src| ==> j < k
    decreases |src| - j
  {
    if j == |src| then j
    else if src[j] == '\n' then j + 1
    else SkipLine(src, j + 1)
  }

  /** The check at the end of a line (INIparser.h:170-177). */
  function EndOfLine(ls: LineState, next: nat): LineResult {
    if ls.read && ls.rs.kind != Section && ls.rs.key == "" && ls.rs.val == "" then
      LineResult(ls.rs, next, Err(IncompleteLine))
    else
      LineResult(ls.rs, next, Ok(ls.read))
  }

  /** The rest of one readLine call from position i with state ls. */
  function ScanFrom(ls: LineState, src: seq<char>, i: nat): (r: LineResult)
    requires i <= |src|
    ensures i <= r.next <= |src|
    ensures i < |src| ==> i < r.next
    decreases |src| - i
  {
    if i == |src| then EndOfLine(ls, i)
    else if src[i] == '\n' then EndOfLine(ls, i + 1)
    else
      match Step(ls, src[i])
      case Next(ls') => ScanFrom(ls', src, i + 1)
      case Comment => LineResult(ls.rs, SkipLine(src, i + 1), Ok(ls.rs.key != "" && ls.rs.val != ""))
      case HeaderClosed => LineResult(ls.rs, i + 1, Ok(false))
      case Fail(e) => LineResult(ls.rs, i + 1, Err(e))
  }

  /** One call of readLine at position pos with read state rs. */
  function ScanLine(rs: ReadState, src: seq<char>, pos: nat): (r: LineResult)
    requires pos <= |src|
    ensures pos <= r.next <= |src|
    ensures pos < |src| ==> pos < r.next
  {
    ScanFrom(LineStart(rs), src, pos)
  }

  /** No character other than a newline can bring a blank into a key or a
      value, or a tab-like character into a section name. */
  lemma {:induction false} StepKeepsClean(ls: LineState, c: char)
    requires CleanLine(ls) && c != '\n' && Step(ls, c).Next?
    ensures CleanLine(Step(ls, c).ls)
  {
    var r := Step(ls, c);
    if !IsIgnored(c) && !(ls.rs.kind != Section && c == ' ') && c != '=' && c != '[' {
      var t := if c == '\\' && ls.escape then "\\" else [c];
      if r.ls.rs != ls.rs {
        assert r.ls.rs == AppendText(ls.rs, t);
        assert forall m | 0 <= m < |t| :: t[m] == c;
      }
    }
  }

  /** SkipLine stops right after the first newline at or after j, or at the
      end of the input when there is none. */
  lemma {:induction false} SkipLineStops(src: seq<char>, j: nat)
    requires j <= |src|
    ensures forall m | j <= m < SkipLine(src, j) - 1 :: src[m] != '\n'
    ensures var k := SkipLine(src, j);
            (j < k && src[k - 1] == '\n') || (k == |src| && forall m | j <= m < k :: src[m] != '\n')
    decreases |src| - j
  {
    if j < |src| && src[j] != '\n' {
      SkipLineStops(src, j + 1);
    }
  }

  /** A call never reads past the end of its line: every character it
      consumes before the last is not a newline. */
  lemma {:induction false} ScanStaysOnLine(ls: LineState, src: seq<char>, i: nat)
    requires i <= |src|
    ensures forall m | i <= m < ScanFrom(ls, src, i).next - 1 :: src[m] != '\n'
    decreases |src| - i
  {
    if i < |src| && src[i] != '\n' {
      match Step(ls, src[i])
      case Next(ls') => ScanStaysOnLine(ls', src, i + 1);
      case Comment => SkipLineStops(src, i + 1);
      case _ =>
    }
  }

  /** A call started in a clean state leaves a clean state, and when it
      returns true outside header mode the key buffer is non-empty. */
  lemma {:induction false} ScanKeepsClean(ls: LineState, src: seq<char>, i: nat)
    requires i <= |src| && CleanLine(ls)
    ensures CleanState(ScanFrom(ls, src, i).rs)
    ensures var r := ScanFrom(ls, src, i);
            r.outcome == Ok(true) && r.rs.kind != Section ==> r.rs.key != ""
    decreases |src| - i
  {
    if i < |src| && src[i] != '\n' {
      match Step(ls, src[i])
      case Next(ls') =>
        StepKeepsClean(ls, src[i]);
        ScanKeepsClean(ls', src, i + 1);
      case _ =>
    }
  }

  /** A call throws IncompleteLine only at the end of its line, outside
      header mode, with both the key and the value buffer empty. */
  lemma {:induction false} ScanIncomplete(ls: LineState, src: seq<char>, i: nat)
    requires i <= |src|
    ensures var r := ScanFrom(ls, src, i);
            r.outcome == Err(IncompleteLine) ==>
              && r.rs.kind != Section && r.rs.key == "" && r.rs.val == ""
              && (r.next == |src| || src[r.next - 1] == '\n')
    decreases |src| - i
  {
    if i < |src| && src[i] != '\n' {
      match Step(ls, src[i])
      case Next(ls') => ScanIncomplete(ls', src, i + 1);
      case _ =>
    }
  }

  /** At the end of the input a call reads nothing and returns false. */
  lemma {:induction false} ScanAtEnd(rs: ReadState, src: seq<char>)
    ensures ScanLine(rs, src, |src|) == LineResult(rs.(kind := Key), |src|, Ok(false))
  {
  }

  /** SkipLine stops right after the first newline. */
  lemma {:induction false} SkipToNewline(src: seq<char>, j: nat, k: nat)
    requires j <= k < |src| && src[k] == '\n'
    requires forall m | j <= m < k :: src[m] != '\n'
    ensures SkipLine(src, j) == k + 1
    decreases k - j
  {
    if j < k {
      SkipToNewline(src, j + 1, k);
    }
  }

  /** The state after a run of characters each of which just continues the
      scan, or None if one of them ends the call. */
  function Steps(ls: LineState, s: string): Option<LineState>
    decreases |s|
  {
    if s == [] then Some(ls)
    else match Step(ls, s[0])
      case Next(ls') => Steps(ls', s[1..])
      case _ => None
  }

  lemma {:induction false} StepsConcat(ls: LineState, a: string, b: string)
    ensures Steps(ls, a + b) == match Steps(ls, a) case Some(m) => Steps(m, b) case None => None
    decreases |a|
  {
    if a != [] {
      assert (a + b)[0] == a[0] && (a + b)[1..] == a[1..] + b;
      match Step(ls, a[0])
      case Next(ls') => StepsConcat(ls', a[1..], b);
      case _ =>
    } else {
      assert a + b == b;
    }
  }

  /** A run of newline-free text that only continues the scan can be skipped
      over: the call goes on from its end with the state the run leaves. */
  lemma {:induction false} ScanThrough(ls: LineState, src: seq<char>, i: nat, j: nat, ls': LineState)
    requires i <= j <= |src| && Steps(ls, src[i..j]) == Some(ls')
    requires forall m | i <= m < j :: src[m] != '\n'
    ensures ScanFrom(ls, src, i) == ScanFrom(ls', src, j)
    decreases j - i
  {
    if i < j {
      assert src[i..j][0] == src[i] && src[i..j][1..] == src[i + 1..j];
      match Step(ls, src[i])
      case Next(ls1) =>
        ScanThrough(ls1, src, i + 1, j, ls');
        assert ScanFrom(ls, src, i) == ScanFrom(ls1, src, i + 1);
      case _ =>
    }
  }
}
