# INIparser in Dafny

This project models the INI reader in `INIparser.h`. The reader is one C++ class.
It has three parts:

- `readLine` is a per-character state machine. It fills three string buffers: the current section, key and value. It drops whitespace, understands backslash escapes, treats `;` as the start of a comment and `=`, `[` and `]` as structure, and throws on malformed lines.
- `load` calls `readLine` until the file is exhausted. Each completed pair goes into a two-level map `m_sections[section][key] = value`.
- `get`/`getVal` look a key up in a section and throw when the section or the key is missing.

The model has two layers.

1. **Pure specification.** `IniScanner` models one call of `readLine` as a function of the read state, the input and a position:
   - `Step` is the effect of one non-newline character.
   - `ScanFrom` and `ScanLine` are the rest of the call.
   - `SkipLine` is the `getline` that discards a comment.

   `IniDocument` models the commit loop of `load` (`LoadFrom`, `LoadSource`, `Parse`) and the write into the map (`Commit`).
2. **Imperative class.** `IniParser.Parser` has the fields `sections` and `readState`.
   - Its method `ReadLine` runs the character loop with the flags `escape`, `read` and `first`. It is proved equal to `ScanLine`.
   - Its method `Load` runs the commit loop and is proved equal to `LoadSource`.
   - `GetVal`, `Get` and `GetFrom` are the lookups.

The input file is a `seq<char>` read from a position. A file that cannot be opened is an absent source (`Option.None`). Thrown exceptions are the `Error` values `InvalidToken(reason)`, `IncompleteLine`, `SectionNotFound`, `KeyNotFound` and `SourceUnavailable`. The reasons of `InvalidToken` are the source's message texts.

The proved properties:

- **Cleanliness.** No key or value ever holds a space, tab, carriage return, form feed, vertical tab or newline. Section names may hold spaces. No stored key is empty. This is an invariant (`Parser.Valid`) that `Load` keeps.
- **Per-character rules.** These cover the structure characters, escapes and the placement of `[`: `[` is accepted exactly while `first` is set, `FirstBeforeText` says what `first` still being set implies, and `FirstSurvives` gives the prefixes that keep it set.
- **End of line.** The check at the end of a line is modelled by its definition (`EndOfLine`). `ScanIncomplete` proves that `IncompleteLine` is thrown only at a line end, outside header mode, with key and value empty. Single lines show the rule: `LoneBackslashFails`, `ScanBareKeyLine`, `ScanOpenHeaderLine` and `ScanQuietLine`.
- **Round trip.** Take any sequence of well-formed lines (headers, unterminated headers, pairs with optional comments, bare keys, comment lines and blank lines) and render each structural character with a backslash. Loading that text succeeds and yields exactly the document the lines describe (`ParseRendered`).
- **Quirks of the code.** Each of the following has its own lemma:
  - spaces inside keys and values are removed;
  - `a=b=c` stores `bc`;
  - `[[abc]` names section `abc`;
  - `a=;` stores nothing;
  - a key left over from a commented line is completed by a later `=value` line;
  - text after `]` is read as a new line;
  - a lone backslash throws.

Where the prose description of the format and the code disagree, the model follows `INIparser.h`:

- An unterminated header `[abc` is not an error. `readLine` returns true in header mode (line 177), and `load` stores nothing but keeps `abc` as the current section (lines 89-97).
- Key and value buffers are cleared only after a line that returns true. A line that returns false (a comment after a key, say) leaves them filled, because `load` continues at line 87 before the reset at lines 94-95.
- After a legal `]` the call returns at once (line 152). The rest of that physical line is read by the next call as a line of its own.
- At the end of a line the call returns `read` (line 177), also in header mode.

## Model

| member | source | states |
|---|---|---|
| IniTypes.AppendText | INIparser.h:155-167 | appending to the buffer selected by the token kind extends exactly that buffer and leaves the other two and the kind unchanged |
| IniScanner.Step | INIparser.h:113-167 | one character: unescaped `;` is a comment; `]` closes the header iff in header mode with a non-empty name; only unescaped `=`, `[`, `]` throw; `=` throws iff the key buffer is empty; `[` throws iff `first` is clear; `]` throws iff not in a header or the name is empty; the section changes only in header mode |
| IniScanner.SkipLine | INIparser.h:126-128 | the comment skip never moves backwards and consumes at least one character when any is left |
| IniScanner.SkipLineStops | INIparser.h:126-128 | the comment skip stops right after the first newline, or at the end of the input when there is none |
| IniScanner.ScanLine | INIparser.h:101-178 | a call ends within the input and consumes at least one character when any is left |
| IniScanner.ScanStaysOnLine | INIparser.h:112 | a call never reads past the newline that ends its line |
| IniScanner.StepKeepsClean | INIparser.h:112-124 | no character can bring a blank into a key or value, or a tab-like character or newline into a section name |
| IniScanner.ScanKeepsClean | INIparser.h:112-177 | a call keeps the buffers clean, and when it returns true outside header mode the key buffer is non-empty |
| IniScanner.ScanIncomplete | INIparser.h:170-175 | `IncompleteLine` is thrown only at the end of a line, outside header mode, with both the key and the value buffer empty |
| IniScanner.ScanAtEnd | INIparser.h:110-112 | a call at the end of the input reads nothing, returns false and only resets the token kind to key |
| IniDocument.Commit | INIparser.h:89-92 | the section is created when missing and the key is set to the value (last write wins); every other section and key is unchanged |
| IniDocument.CommitKeepsClean | INIparser.h:89-92 | committing a clean pair keeps the document clean |
| IniDocument.LoadKeepsEntries | INIparser.h:86-98 | a load never removes a section or a key |
| IniDocument.LoadKeepsClean | INIparser.h:86-98 | a load keeps the document and the read state clean |
| IniDocument.LoadFrom | INIparser.h:86-98 | the commit loop from a position, defined line by line; its partners state what it keeps: `LoadKeepsEntries` (no section or key is dropped), `LoadKeepsClean` (cleanliness) and `LoadRendered` (a rendered document loads back); `LoadSkip`, `LoadCommit` and `LoadHeaderMode` unfold its three branches |
| IniDocument.LoadSkip | INIparser.h:87 | one step of `LoadFrom` unfolded, used by the line lemmas: a line that returns false stores nothing and keeps the read state it left |
| IniDocument.LoadCommit | INIparser.h:89-97 | one step of `LoadFrom` unfolded: a line that returns true outside header mode stores its pair in the current section and clears key and value |
| IniDocument.LoadHeaderMode | INIparser.h:89-97 | one step of `LoadFrom` unfolded: a line that returns true in header mode stores nothing but clears key and value |
| IniDocument.LoadSource | INIparser.h:83-98 | a load starts from an empty map and the initial read state (section `" "`), and what it builds is clean |
| IniDocument.Parse | INIparser.h:77-99 | a load yields a document exactly when it throws nothing, and that document is clean |
| IniParser.Parser.constructor | INIparser.h:26-56 | a new parser has no sections and the initial read state |
| IniParser.Parser.ReadLine | INIparser.h:101-178 | the character loop leaves the read state, end position and return value or error that `ScanLine` specifies |
| IniParser.Parser.Load | INIparser.h:77-99 | from any prior state: an absent source throws and changes nothing; otherwise the sections, read state and outcome are those of `LoadSource`, and the cleanliness invariant holds afterwards |
| IniParser.Parser.GetVal | INIparser.h:180-191 | the stored value iff the section and key are present; "Section not found" iff the section is missing; "Key not found" iff the section is present without the key |
| IniParser.Parser.Get | INIparser.h:69-71 | `get(key)` is the lookup in the default section `" "` |
| IniParser.Parser.GetFrom | INIparser.h:73-75 | `get(section, key)` is the lookup in that section |
| IniRoundTrip.StepsEscaped | INIparser.h:126-167 | scanning escaped text appends exactly the unescaped text to the current buffer; a backslash before `\`, `;`, `=`, `[` or `]` makes it ordinary text |
| IniRoundTrip.StepsAssignment | INIparser.h:134-138 | escaped key, `=`, escaped value fill the key and value buffers and leave value mode set |
| IniRoundTrip.ScanComment | INIparser.h:126-130 | an unescaped `;` consumes through the newline and returns true iff both key and value buffers are non-empty |
| IniRoundTrip.ScanTextThenComment | INIparser.h:126-130 | text that only continues the scan, then a comment: the call keeps the state the text left and returns true iff key and value are both set |
| IniRoundTrip.ScanPairLine | INIparser.h:112-177 | a `key=value` line, with or without a comment, returns true with both buffers filled |
| IniRoundTrip.ScanHeaderLine | INIparser.h:140-153 | `[name]` sets the section and returns false right after `]` |
| IniRoundTrip.ScanOpenHeaderLine | INIparser.h:140-145 | `[name` without `]` sets the section and returns true in header mode |
| IniRoundTrip.ScanText | INIparser.h:165-167 | escaped text at the start of a line appends to the key buffer |
| IniRoundTrip.ScanBareKeyLine | INIparser.h:170-177 | a key without `=` returns true with an empty value buffer |
| IniRoundTrip.ScanQuietLine | INIparser.h:112-130 | a comment line or a blank line returns false and changes no buffer |
| IniRoundTrip.LoadHeaderLine | INIparser.h:149-153 | a header line takes two calls, stores nothing and makes its name the current section |
| IniRoundTrip.LoadPairLine | INIparser.h:89-97 | a pair line stores its pair in the current section |
| IniRoundTrip.LoadBareKeyLine | INIparser.h:170-177 | a bare key is stored with the empty value |
| IniRoundTrip.LoadOpenHeaderLine | INIparser.h:89-97 | an unterminated header stores nothing and changes the current section |
| IniRoundTrip.LoadQuietLine | INIparser.h:87 | a comment or blank line stores nothing |
| IniRoundTrip.LoadLine | INIparser.h:86-98 | any well-formed line is applied as its meaning says, and the key and value buffers are empty again |
| IniRoundTrip.LoadRendered | INIparser.h:86-98 | loading rendered well-formed lines throws nothing and yields the document the lines describe, the current section carried across lines |
| IniRoundTrip.ParseRendered | INIparser.h:77-99 | the text of a well-formed document parses to the document it describes; pairs before any header go to section `" "` |
| IniBehaviours.StepsDropBlanks | INIparser.h:113-124 | outside a header, blanks anywhere in a line have no effect: `greeting = hello world` scans as `greeting=helloworld` |
| IniBehaviours.StepEntersHeader | INIparser.h:140-145 | only an unescaped `[` enters header mode |
| IniBehaviours.FirstBeforeText | INIparser.h:140-147 | while `first` is set, the line holds no backslash, the key, value and escape state are unchanged, and the section buffer is the starting one or, after an unescaped `[`, empty; so `[` is only accepted before any text |
| IniBehaviours.FirstStaysCleared | INIparser.h:147 | once `first` is cleared no later character sets it again |
| IniBehaviours.FirstSurvives | INIparser.h:113-145 | `first` stays set across tab-like characters, unescaped `[`, `=` after a key and spaces before any `[`, so `[` is still accepted after them |
| IniBehaviours.DoubledBracket | INIparser.h:140-144 | `[[` scans as `[`, so `[[abc]` names section `abc` |
| IniBehaviours.RepeatedEquals | INIparser.h:134-138 | every `=` after the first is dropped: `key=v1=v2` stores `v1v2` |
| IniBehaviours.ScanValueLine | INIparser.h:134-138 | `=value`, read while a key is left in its buffer, returns true with that key and the value |
| IniBehaviours.ScanKeyComment | INIparser.h:126-130 | `key;comment` returns false and leaves the key in its buffer |
| IniBehaviours.DanglingKeyCarriesOver | INIparser.h:87-97 | `a ;` then `=1` stores `a=1`, because a line that returns false does not clear the buffers |
| IniBehaviours.ScanEmptyValueComment | INIparser.h:126-130 | `key=;comment` returns false and leaves the key in its buffer |
| IniBehaviours.EmptyValueComment | INIparser.h:87 | `key=;` stores nothing |
| IniBehaviours.LoadAssignmentLine | INIparser.h:89-97 | a `key=value` line stores the pair in the current section and clears the buffers |
| IniBehaviours.HeaderThenPair | INIparser.h:152 | `[s]x=1` on one line stores `x=1` in section `s` |
| IniBehaviours.EmptySectionFails | INIparser.h:151 | `[]` throws and stores nothing more |
| IniBehaviours.UnexpectedBracketFails | INIparser.h:150 | `]` outside a header throws and stores nothing more |
| IniBehaviours.MisplacedBracketFails | INIparser.h:141 | `[` after key text throws and stores nothing more |
| IniBehaviours.TrailingBackslash | INIparser.h:155-163 | an unpaired backslash at the end of a pair line adds nothing |
| IniBehaviours.LoneBackslashFails | INIparser.h:170-175 | a line holding only a backslash throws "Uncomplete line" |

## Left out

- File handling with `std::fstream` (lines 78-81, 86, 112, 128). The input is a character sequence read from a position, and a file that fails to open is an absent source. The loop `while (file.good())` is `pos < |src|`. The extra call at the end of the file reads nothing; its only effect is to set the token kind to key (`ScanAtEnd`), so it is not run by `Load`.
- Characters are Dafny `char`s, not C++ `char` bytes. No encoding is modelled.
- Hashing and iteration order of `std::unordered_map`: sections are a Dafny `map<string, map<string, string>>`.
- Exceptions are `Result` values. The state a throw leaves behind is modelled as it is at the throw. The sections keep what was committed before the throw.
- Dead code: `escape_used` (line 105) and `Section section` (line 90) are never used. `ReadState()` at line 84 value-initialises the token kind to SECTION, but `readLine` overwrites it at line 110. The model starts with kind KEY, which changes nothing observable.
- `IniParser.Parser.ReadLine` and `Load` each take the input as a parameter instead of holding an open stream as a field.
