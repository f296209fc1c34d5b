# wshake webshell detector: a Dafny model of its core

wshake (`wsh.py`) looks for PHP/ASP/JSP webshells. It loads a fingerprint
database that is base64 text of a PHP `serialize()` dump, decodes it with a
small hand-written `PhpSerializer`, and turns it into a table from a literal
fingerprint text to a shell descriptor `name[rev][flag][type]`. For each file
it scans, `_anaylize` reports three things:
- the suspicious lines, numbered;
- the table entries whose fingerprint occurs in the file, each split into its descriptor fields;
- an alarm level read from `FLAG_MAP` by the highest flag seen.

The model has one module per part of that core:

| module | file | models |
|---|---|---|
| `Wrappers` | wrappers.dfy | `Option` and `Result` |
| `PyText` | pytext.dfy | the Python 2 string operations the core uses: `partition`, clamping slices, `int()`, `str.replace`, `split`/`join`, `in` on strings |
| `PhpSerializer` | php_serializer.dfy | `PhpSerializer` (wsh.py:39-85): the decoder as a function on a position of the stream, and the two methods with their loop |
| `PhpTokens` | php_tokens.dfy | what each kind of token decodes to, and the decoder's quirks |
| `PhpRoundTrip` | php_roundtrip.dfy | a serializer for well-formed PHP values and the round trip through the decoder; repeated and falsy keys |
| `Descriptors` | descriptors.dfy | `FingerReg` (wsh.py:35) with its lazy groups: soundness, least-match completeness, an example |
| `Fingerprints` | fingerprints.dfy | `load_finter_print` (wsh.py:118-140) and its key loop |
| `Analysis` | analysis.dfy | `_anaylize` (wsh.py:176-223): suspicious lines, the scoring loop, `FLAG_MAP`, the `Detector` class |

How the model represents things:
- **Positions, not copies.** Python hands each decoder the remainder of the
  string (`s[2:]`, `x[2]`). The model keeps one stream `s` and a position `p`.
  `Var(s, p)` returns the decoded value and the position where the remainder
  starts. `PyText.PartitionFromSpec` and `PyText.SliceFromSpec` prove this is
  the same as partitioning or slicing `s[p..]`.
- **Exceptions as values.** The `Result` error cases are `EmptyStream`
  (`s[0]` on ""), `UnknownTag` (the dispatch dict's `KeyError`), `BadInteger`
  (`int()`'s `ValueError`) and `UnhashableKey` (a dict used as a key).
- **Integers** are unbounded, as in Python.
- **`int()`** is specified independently by `PyText.IntLiteral`:
  - optional surrounding whitespace;
  - an optional sign, which whitespace may follow (Python 2 reads
    `int("- 5")` as -5, so `i:- 5;` decodes to -5);
  - one or more decimal digits.
- **`float()` texts** are kept as text. A float key is truthy unless its text
  is plainly zero (`FloatIsZero`): an optional sign and a mantissa of only
  `0` and `.`, whatever exponent follows, so `0e0` and `0.0e5` are zero.
- **Dict order.** Python 2 iterates a dict in an order of its own. The loops
  take any key not yet visited (`:|`), so their contracts hold for every order.

The code is followed where it departs from what is evidently meant:
- **The string length is not checked.** `_unserialize_string` (wsh.py:68-70)
  never checks the length against the text. Python's slices clamp, so an
  overlong length gives a short payload and an empty remainder rather than an
  error (`PhpTokens.StringOverrun`). The quotes and the `;` after a string,
  and the `{`/`}` of an array, are skipped without being checked.
- **A falsy key shifts the entries.** `_unserialize_array` (wsh.py:79) tests
  the pending key with `if k:`. A falsy key (0, "", false, null) is therefore
  not taken as a key, and the following value becomes the key instead
  (`PhpRoundTrip.FalsyKeyShift`). The round trip is proved for arrays whose
  keys are truthy ints or strings.
- **No hits gives "low".** With no fingerprint hit the alarm is "low", not the
  "medium" set at wsh.py:190, because line 222 overwrites it with
  `FLAG_MAP.get(1)`.
- **Line numbers count suspicious lines.** The number given to a suspicious
  line is one more than the number of suspicious lines before it. `count` is
  only incremented after a hit (wsh.py:196-201), so it is not the physical
  line number that the docstring's `"line"` suggests.
- **Four faults in `_anaylize` and `Detector` are modelled as evidently intended:**
  - The constructor calls `load_finter_print(self.__db_path)` (wsh.py:95),
    but the method takes no argument (wsh.py:119). The model loads from the
    database text.
  - `for reg, shell in self.__finger_print` (wsh.py:204) iterates over the
    keys of a dict. The model iterates over the table's entries.
  - `result["finterprint"]` (wsh.py:215) is a misspelt key, which would raise
    `KeyError`. The model appends to the fingerprint list.
  - The flag comparison at line 212 is modelled as integer comparison. The
    as-written behaviour is under Findings.
- **`FingerReg.findall(shell)[0]`** raises when a descriptor does not match
  (`NoDescriptor`) or is not a string (`NotText`). An integer flag that
  `int()` rejects is `BadFlag`.
- **`catch_exc` defaults.** `load_finter_print` is wrapped in
  `catch_exc({})`, so any exception there becomes the empty table. Empty
  database text takes the bare `return`, giving `None`. Scoring with a `None`
  table raises (`NoTable`).
- **Parameters stand in for code the model does not see:**
  - base64 decoding (`b64`, `None` where it raises);
  - the heuristic `Regex.findall` (`findall`).
- **Fingerprints are kept as text.** A compiled `re.escape(fpt)` pattern
  matches exactly where its text occurs literally, so the model keeps the
  text and tests `Contains`.

## Model

| member | source | states |
|---|---|---|
| PyText.Partition | wsh.py:54 | `str.partition` on one separator: the tail is never longer than the string; PartitionParts and PartitionAt state the parts |
| PyText.PartitionParts | wsh.py:54 | `partition(sep)`: the three parts put together are the string, the head holds no separator, the middle is the separator or empty, and when it is empty the head is the whole string |
| PyText.PartitionAt | wsh.py:73 | a string `a + sep + b` with no separator in `a` partitions into `(a, sep, b)` |
| PyText.PartitionFromSpec | wsh.py:54 | partitioning from position i of the stream gives the head and the tail's position that `partition` gives on `s[i:]` |
| PyText.SliceFromSpec | wsh.py:70 | the clamping slices `s[1:L+1]` and `s[L+3:]`, taken on the stream at a position, equal Python's slices of the remainder |
| PyText.StripSpec | wsh.py:55 | the whitespace `int()` ignores: what Strip removes is whitespace, and what it keeps starts and ends with non-whitespace |
| PyText.Strip | wsh.py:55 | the whitespace trimming inside `int()`; its contract is StripSpec |
| PyText.ParseInt | wsh.py:55 | `int()` on decimal text: None where it raises ValueError; ParseIntSpec ties it to the reference grammar |
| PyText.SpacedSignExample | wsh.py:55 | `int(" - 5 ")` is -5, while whitespace inside the digits or a sign with no digit raises |
| PyText.ParseIntSpec | wsh.py:55 | the digit scanner used for `int()` accepts exactly the texts of the reference definition (whitespace, an optional sign that whitespace may follow, one or more digits) and gives the same value |
| PyText.ParseIntToString | wsh.py:55 | `int()` reads back the decimal text of every integer |
| PyText.IntToStringChars | wsh.py:54 | the decimal text of an integer holds neither ':' nor ';', so it ends at the first separator |
| PyText.RemoveAbsent | wsh.py:137 | `replace('bb:', '')` leaves a string without the marker unchanged |
| PyText.RemovePresent | wsh.py:137 | `replace('bb:', '')` removes at least one marker's length from a string holding the marker |
| PyText.RemoveLeftmost | wsh.py:137 | `replace` scans left to right: with the leftmost occurrence of the marker right after `a`, the result is `a` followed by the replacement of what comes after that occurrence |
| PyText.RemoveAll | wsh.py:137 | `s.replace(m, '')`: every non-overlapping occurrence removed, scanning left to right; it never lengthens the string, and RemoveAbsent, RemovePresent and RemoveLeftmost state what it removes |
| PyText.ContainsOccurs | wsh.py:136 | `'bb:' in fpt` holds exactly when the marker occurs at some index |
| PyText.Contains | wsh.py:205 | substring search: `'bb:' in fpt` (wsh.py:136) and the escaped-literal `reg.findall(content)` test; its contract is ContainsOccurs |
| PyText.OccursAtIsAt | wsh.py:136 | the slice and index forms of "m occurs in s at i" (OccursAt, StartsWith, At) agree |
| PyText.Lower | wsh.py:51 | `s[0].lower()`: the result is never an upper-case ASCII letter, and only upper-case ASCII letters change, each to its lower-case letter |
| PyText.Split | wsh.py:194 | `content.split('\n')` always has at least one piece; SplitPieces, JoinSplit and SplitJoin state the pieces |
| PyText.SplitPieces | wsh.py:194 | no piece of `split('\n')` holds a newline |
| PyText.JoinSplit | wsh.py:194 | joining the pieces of `split('\n')` with newlines gives back the content |
| PyText.SplitJoin | wsh.py:194 | splitting newline-free pieces joined by newlines gives back the pieces |
| PhpSerializer.DecodeInt | wsh.py:53-55 | an integer token decodes to an int or raises a bad-integer error, never consuming past the stream |
| PhpSerializer.DecodeBool | wsh.py:57-59 | a boolean token always decodes to a bool |
| PhpSerializer.DecodeDouble | wsh.py:61-63 | a double token always decodes to a float payload |
| PhpSerializer.DecodeNull | wsh.py:65-66 | null consumes nothing beyond its marker |
| PhpSerializer.DecodeString | wsh.py:68-70 | a string token decodes to a string or raises a bad-integer error for its length |
| PhpSerializer.Var | wsh.py:43-51 | a decoded value is always followed by a position strictly after the token's start and within the stream |
| PhpSerializer.Truthy | wsh.py:79 | the `if k:` test: 0, False, None, the empty string, the empty dict and a float whose text is plainly zero are false, everything else true |
| PhpSerializer.FloatZeroExample | wsh.py:79 | float keys `0e0` and `-0.0E5` are zero, so not truthy |
| PhpSerializer.FloatNonzeroExample | wsh.py:79 | float keys `0.5` and `1e0` are not zero |
| PhpSerializer.AsKey | wsh.py:80 | the key `a[k] = v` stores under: a dict has none (TypeError), True and False land on the int keys 1 and 0, and only a string gives a string key |
| PhpSerializer.Pair | wsh.py:79-83 | one pass of the pairing: a truthy pending key stores the value and is cleared, any other pending key is replaced by the value; UnhashableKey for a dict key |
| PhpSerializer.Entries | wsh.py:76-83 | the key/value loop with n values to go: it never reads past the stream; UnserializeArray and EntriesRoundTrip state what it builds |
| PhpSerializer.Next | wsh.py:77-83 | one turn of that loop once a value is read: it never reads past the stream |
| PhpSerializer.DecodeArray | wsh.py:72-85 | an array token decodes to a dict |
| PhpSerializer.ValueCount | wsh.py:76 | `range(0, int(l) * 2)` has an even number of steps, twice l for a positive l and none otherwise |
| PhpSerializer.Unserialize | wsh.py:40-41 | unserialize is the value of the decoder at the start of the text, or its error |
| PhpSerializer.UnserializeVar | wsh.py:43-51 | the method returns exactly the decoder's result at the position |
| PhpSerializer.UnserializeArray | wsh.py:72-85 | the key/value loop's result is exactly the array decoder's result: 2·int(l) reads alternating key and value, a truthy pending key storing the value |
| PhpTokens.IntToken | wsh.py:53-55 | `i:<text>;` at any position reads int() of the text and resumes after the ';', or raises for a non-integer text |
| PhpTokens.BoolToken | wsh.py:57-59 | `b:<text>;` reads true exactly when the text is "1" |
| PhpTokens.DoubleToken | wsh.py:61-63 | `d:<text>;` reads the text as a float payload |
| PhpTokens.NullToken | wsh.py:65-66 | `N;` reads null and resumes after it |
| PhpTokens.StringToken | wsh.py:68-70 | `s:<len>:"<payload>";` with the right length reads the payload and resumes after the token |
| PhpTokens.StringOverrun | wsh.py:68-70 | a length past the end yields what is left after the quote, and the end of the stream, rather than an error |
| PhpTokens.VarTags | wsh.py:43-51 | an unknown-tag error is only ever raised for a character that is not a known tag |
| PhpTokens.Dispatch | wsh.py:43-51 | the empty stream raises; a token raises an unknown-tag error exactly when its lower-cased first character is none of i, b, d, n, s, a |
| PhpRoundTrip.IntRoundTrip | wsh.py:53-55 | a serialized integer reads back as itself |
| PhpRoundTrip.StrRoundTrip | wsh.py:68-70 | a serialized string, whatever its characters, reads back as itself |
| PhpRoundTrip.RoundTrip | wsh.py:43-85 | wherever a serialized well-formed term stands in a stream, the decoder reads exactly its text and returns its value |
| PhpRoundTrip.EntriesRoundTrip | wsh.py:76-83 | the loop over the serialized entries from the i-th one builds the dict those entries give, ending right after them |
| PhpRoundTrip.UnserializeSerialize | wsh.py:40-41 | unserialize of a serialized well-formed term, followed by any text, is the term's value |
| PhpRoundTrip.LastWriteWins | wsh.py:79-81 | with repeated keys the dict holds the value of the last entry with that key |
| PhpRoundTrip.KeptLater | wsh.py:79-81 | a key no later entry rewrites keeps the value it had |
| PhpRoundTrip.FalsyKeyShift | wsh.py:79-83 | `a:2:{i:0;s:1:"a";i:1;s:1:"b";}` decodes to {"a": 1}: the falsy key 0 is skipped and the pairing shifts by one |
| PhpRoundTrip.SpacedIntExample | wsh.py:53-55 | `i:- 5;` decodes to the int -5 |
| Descriptors.ParseDescriptor | wsh.py:210 | `FingerReg.findall(shell)[0]`: the four groups of the least match, None where `[0]` raises IndexError; ParseSound, ParseComplete, ParsePlain and ParseFails state it |
| Descriptors.Lead | wsh.py:35 | every match the search returns is a match of the pattern (four `[...]`-closed non-empty newline-free groups from the start) |
| Descriptors.LeadLeast | wsh.py:35 | when any match exists the search finds one whose group ends are lexicographically least, as the lazy `+?` groups choose |
| Descriptors.ParseSound | wsh.py:35 | a parsed descriptor is well-formed and its text `name[rev][flag][type]` starts the string |
| Descriptors.ParseComplete | wsh.py:35 | a string starting with any well-formed descriptor's text parses, with group ends no later than that descriptor's |
| Descriptors.ParsePlain | wsh.py:35 | a descriptor whose fields hold no brackets is parsed back exactly from any string its text starts |
| Descriptors.ParseFails | wsh.py:210 | parsing fails exactly when no well-formed descriptor's text starts the string (the IndexError of `findall(shell)[0]`) |
| Descriptors.ParseExample | wsh.py:35 | "c99shell[1.0][3][php]" parses into name c99shell, rev 1.0, flag 3, type php |
| Fingerprints.Classify | wsh.py:133-137 | one key of the loop: skipped exactly when it is "version"; a non-string key raises; a string key without "bb:" is its own pattern; a key with "bb:" raises only when its base64 fails |
| Fingerprints.BuildTable | wsh.py:131-140 | the key loop raises exactly when some key is not a string or its base64 fails; otherwise the table's patterns are exactly those of the keys and each entry is the value of a key giving that pattern |
| Fingerprints.DistinctTable | wsh.py:139 | with no two keys giving one pattern, every used key's value is in the table under its pattern |
| Fingerprints.VersionSkipped | wsh.py:133-134 | every table entry comes from a key other than "version" |
| Fingerprints.PlainKey | wsh.py:136-139 | a string key without "bb:", other than "version", is its own pattern |
| Fingerprints.LoadFingerPrint | wsh.py:118-129 | empty text gives None; text that decodes to a dict with good keys gives the table its loop builds; anything else gives the empty table |
| Analysis.Suspicious | wsh.py:196-201 | the list the line loop appends, numbering from `count`; SuspiciousNumbering states its entries |
| Analysis.MatchingLines | wsh.py:197-199 | the lines with a non-empty findall result; MatchingLinesMatch and MatchingLinesIndices state which |
| Analysis.SuspiciousNumbering | wsh.py:196-201 | the suspicious entries are the matching lines in order, the i-th numbered count + i with its findall result |
| Analysis.MatchingLinesMatch | wsh.py:197-199 | no more lines are kept than there are lines, and each kept line is one of the lines and has a non-empty findall result |
| Analysis.MatchingLinesIndices | wsh.py:196-201 | the matching lines are exactly the lines with a non-empty findall result, each once, in file order: their indices increase, each indexed line matches, and every matching line's index is among them |
| Analysis.SuspiciousLines | wsh.py:192-201 | the line loop's list is the numbered suspicious entries of the content's newline pieces |
| Analysis.Describe | wsh.py:209-211 | a descriptor the scoring accepts has an integer flag |
| Analysis.MaxFlag | wsh.py:203-213 | `max_flag` with integer flags, starting from 1 and never below it; MaxFlagIsMax states that it is the maximum |
| Analysis.MaxFlagIsMax | wsh.py:203-213 | the running maximum is at least 1, bounds every hit's flag, and is 1 or some hit's flag |
| Analysis.MaxFlagOrder | wsh.py:204 | the maximum does not depend on the order of the hits |
| Analysis.HitsOf | wsh.py:204-220 | one well-formed hit per visited entry |
| Analysis.FlagLabel | wsh.py:26-31 | `FLAG_MAP.get(m, "medium")`: always one of the four levels; "normal" exactly for -1, "low" exactly for 1, "high" exactly for 3, "medium" for any other key |
| Analysis.Alarm | wsh.py:222 | `FLAG_MAP.get(max_flag, "medium")`: the alarm is never "normal", is "low" with no hits, and is "high" exactly when some flag is 3 and none is above 3 |
| Analysis.Score | wsh.py:203-220 | the scoring raises exactly when some matching entry's descriptor is bad; otherwise the hits are those of the matching entries in some order, and the maximum is their highest flag |
| Analysis.Detector.constructor | wsh.py:90-95 | keeps show_line, and the fingerprint table is the one `load_finter_print` gives for the database text: none for an empty text, the loaded table when it decodes, and `{}` when loading raises |
| Analysis.Detector.Analyze | wsh.py:176-223 | empty content or no heuristic match gives `{}`; otherwise it raises exactly when there is no table or the scoring raises, and gives a report whenever it does not raise; the report lists the numbered suspicious lines when show_line is set, the hits of the matching entries, and the alarm of those hits |
| Analysis.MaxFlagAsWritten | wsh.py:203-213 | `max_flag` as written is the initial int 1 or the flag text of one of the hits |
| Analysis.LabelAsWritten | wsh.py:222 | `FLAG_MAP.get(max_flag, "medium")` is one of the four labels, and "medium" for a string `max_flag`, which is no key of the int-keyed map |
| Analysis.AsWrittenIsString | wsh.py:211-213 | as written, after any hit the running maximum is a flag string |
| Analysis.AsWrittenAlarm | wsh.py:212-222 | as written, the alarm is "low" with no hits and "medium" with any |
| Analysis.FlagCompareExample | wsh.py:212-222 | a single hit with flag "3" gives "medium" as written, and "high" with the integer comparison |

## Left out

- File and network I/O are not modelled: `get_finger_content` (wsh.py:97-102) and the file read in `_anaylize` (wsh.py:176-178). The database text and the file content are parameters.
- `get_fileinfo` (wsh.py:142-152) is not modelled. It only reads `os.stat`, and the report leaves out its file metadata.
- `list_ext_files` (wsh.py:104-116), the `anaylize` generator (wsh.py:225-227) and the command line `opt()` are not modelled. They are globbing, iteration over files and argument handling.
- `base64.decodestring` and the heuristic `Regex.findall` (wsh.py:33) are parameters, not models.
- A compiled `re.escape` fingerprint is modelled as a literal substring test.
- PhpSerializer.DecodeDouble: `float()` is not parsed. A double keeps its text, and the truth test of a float key is approximated by `FloatIsZero`. `float()` raising ValueError on a bad text is not modelled: `d:abc;` decodes.
- PhpSerializer.Truthy: a float key is zero only when its mantissa text is zero. A text with a nonzero mantissa that underflows to 0.0 in `float()` (`d:1e-400;`) is truthy in the model and falsy in Python.
- PhpTokens.DoubleToken: states the same text-keeping reading of a double, not `float()` of it.
- PhpSerializer.AsKey: a float key is keyed by its text. Python merges a float key with an equal int key (`1.0 == 1`) and equal floats written differently (`1.0`, `1.00`), so `a:2:{d:1.0;s:1:"x";i:1;s:1:"y";}` gives `{1.0: 'y'}` in Python and two entries in the model. The fingerprint loader rejects every non-string key either way (`Fingerprints.Classify`).
- PhpSerializer.DecodeArray: inherits that difference in key equality for float keys.
- Python's dict iteration order is not modelled. Each loop may take the keys in any order, and the contracts hold for all of them.
- Python 2 `str`/`bytes` distinctions and `bytes(content)` are not modelled. Text is a sequence of characters.
- Analysis.Detector.constructor: its contract only ties the loaded table to `Fingerprints.LoadFingerPrint`.
- PhpRoundTrip.RoundTrip: covers arrays whose keys are truthy ints or strings; arrays with falsy keys are covered only by `PhpRoundTrip.FalsyKeyShift`.
- PhpRoundTrip.DoubleRoundTrip: a double reads back as its text, not as a number.

## Findings

| source | as written | input that shows it | evidently intended | confidence | as-written member | corrected member |
|---|---|---|---|---|---|---|
| wsh.py:211-213 | `flag` is the descriptor's text and `max_flag` starts as the int 1. Python 2 orders every str above every int, so `flag > max_flag` always holds. The alarm is then `FLAG_MAP.get` of a string, which is "medium" after any hit | one matching entry with descriptor `c99shell[1.0][3][php]` gives alarm "medium", with lines 95, 204 and 215 read as intended (otherwise the method raises before line 222) | the flag is compared as an integer, so the alarm is "high" for flag 3 | high, not executed | Analysis.AsWrittenAlarm, Analysis.FlagCompareExample | Analysis.Alarm, Analysis.MaxFlagIsMax |
