# Certificate record: a Dafny model

This project models the `Certificate` class of the Webslon OpenSSL library. The class
asks the `openssl` command-line tool about a certificate file and turns the tool's text
output into structured data. It has four parts.

- **Format detection (`load`)**:
  - ask for the subject as PEM, then as DER;
  - if neither works, and only on the original file, unwrap a PKCS#7 bundle into a
    temporary PEM file and start again once on that file;
  - once a format is known, query the issuer, dates, hash and fingerprint.
- **Distinguished-name parser (`organizationToArray`, `convertXcodesToText`)**:
  - decode `\x<hex>` escapes into single bytes;
  - split on `/` and then at the first `=`;
  - trim the value and drop empty `subject`/`issuer` prefix segments;
  - collect the OIDs of a fixed eight-entry table under their Russian registry aliases,
    with INN losing its leading zeros, in an array stored under `"webslon"`.
- **Dates and validity (`getDates`, `isValid`)**:
  - `getDates` turns `notBefore=...` / `notAfter=...` lines into an array;
  - `isValid` checks the current time against every entry and rejects any other key.
- **The memoising record**:
  - each getter computes its view of a raw tool output and keeps it once the raw output is
    non-null; while the raw output is null, the subject and issuer getters run the parser
    again on every call;
  - `getAll` bundles the views, but only for a loaded certificate.

The modules follow these parts:

- `Php` (`php.dfy`): the PHP built-ins the class relies on. These are `explode`/`implode`
  on a one-character glue, `trim` (space, tab, LF, CR, NUL, vertical tab), `ltrim($s, "0")`,
  falsy strings, `strpos(...) !== false`, and the array that a `foreach` builds with
  `$a[$k] = $v` (the last write wins).
- `Escapes` (`escapes.dfy`): the escape decoder, as a recursive function.
- `DistinguishedName` (`distinguished_name.dfy`): the parser. It has a specification
  function, `ParseDn`, and the loop that implements it, `OrganizationToArray` with
  `CollectSegments`.
- `Validity` (`validity.dfy`): the dates parser and the validity check. Each has a
  specification function and a loop proved against it.
- `Loading` (`loading.dfy`): the detection chain. `LoadSpec` is its specification and
  `Load` its step-by-step method.
- `CertificateRecord` (`certificate.dfy`): the class with its raw fields, its five caches
  and their invariant `Valid()`, its getters and `getAll`.

The outside world becomes parameters:

- The `openssl` tool becomes an oracle `Tool = (file, command) -> output`, where `None`
  stands for PHP's `null`.
- The name that `tempnam` returns is the parameter `tempName`. What the tool prints for
  that file stands for the PEM text written into it.
- The clock `time()` is the parameter `now`.
- `strtotime` is the parameter `parseTime: string -> int`.

## Behaviour worth knowing

- **Both date keys are optional.** `isValid` only checks the keys that are present, so a
  missing `notBefore` or `notAfter` is not required, and an empty dates array is valid.
  Any key other than the two is rejected. See `Validity.WindowValidIff`.
- **An unreadable file still gives an object.** When no format is detected, construction
  does not fail. It leaves an unloaded record with `loaded` false, and `getAll` then
  reports only `loaded`, `fileName` and `tmpFileName`.
- **A null name and an empty name differ.** `organizationToArray` returns null for null.
  For any non-null text, even an empty one, it returns an array that holds at least
  `"webslon"`.
- **An escape yields one byte.** `chr(hexdec(run))` gives the run's value modulo 256, so
  only the last two hex digits count (`Escapes.ChrOfLastTwoDigits`). It does not give a
  Unicode code point.
- **A null tool output reads as readable.** `strpos` reads a null output as the empty
  string. Such an output does not contain the failure message, so a null subject output
  counts as a readable PEM file (`Php.Contains`).

## Model

| member | source | states |
|---|---|---|
| Php.Explode | Certificate.php:147 | explode gives at least one piece, no piece holds the separator, and joining the pieces with the separator gives the input back |
| Php.ExplodeSeparated | Certificate.php:147 | text free of the separator, then the separator, splits off as the first piece, followed by the pieces of the rest |
| Php.ExplodeFree | Certificate.php:164-165 | text without the separator is exactly one piece, so such a segment has fewer than two pieces |
| Php.ExplodeImplode | Certificate.php:164-168 | explode undoes implode on pieces free of the glue, so array_shift plus implode rebuilds the text after the first '=' |
| Php.TrimStart | Certificate.php:168 | the leading-whitespace cut is a suffix of the input, everything cut is trimmable, and the result does not start with a trimmable character |
| Php.TrimEnd | Certificate.php:168 | the trailing-whitespace cut is a prefix of the input, everything cut is trimmable, and the result does not end with a trimmable character |
| Php.Trim | Certificate.php:168 | neither end of the trimmed text is trimmable, it is never longer than the input, and an empty result means the input was all whitespace |
| Php.TrimStartPadded | Certificate.php:168 | trimmable padding in front of text that starts with a non-trimmable character is removed exactly |
| Php.TrimEndPadded | Certificate.php:168 | trimmable padding behind text that ends with a non-trimmable character is removed exactly |
| Php.TrimPadded | Certificate.php:168 | trim returns exactly the text between any trimmable padding on both sides |
| Php.TrimLeadingZeros | Certificate.php:177 | ltrim of "0" returns the suffix after the run of leading zeros, and that suffix does not start with '0' |
| Php.KeyValueAtFirstEquals | Certificate.php:164-168 | an item yields a key and value exactly when it holds '='; the key is the untrimmed text before the first '=' and the value is the trimmed text after it |
| Php.KeyValueOf | Certificate.php:164-168 | "key=value" with no '=' in the key yields that key and the trimmed value, even when the value holds '=' |
| Php.AssignKeys | Certificate.php:163-173 | the array the loop builds holds exactly the keys that some item assigns |
| Php.AssignLastWins | Certificate.php:173 | each key holds the value of the last item that assigns it |
| Escapes.Chr | Certificate.php:246 | chr gives a byte whose value is the argument modulo 256 |
| Escapes.HexRunLength | Certificate.php:245 | the hex run is maximal: all its characters are hex digits and the next character is not |
| Escapes.ConvertXcodes | Certificate.php:243-249 | decoding never makes the text longer |
| Escapes.HexDecPair | Certificate.php:246 | hexdec of two hex digits is sixteen times the first digit plus the second |
| Escapes.ChrOfLastTwoDigits | Certificate.php:246 | the byte a run decodes to is the value of its last two hex digits |
| Escapes.NoEscapeUnchanged | Certificate.php:245-247 | text with no `\x` followed by a hex digit comes back unchanged |
| Escapes.HexRunLengthOf | Certificate.php:245 | a hex run followed by a non-hex character is matched to its full length |
| Escapes.EscapeReplaced | Certificate.php:245-247 | a whole match `\x`+run followed by a non-hex character becomes one byte `chr(hexdec(run))`, and decoding goes on after it |
| Escapes.PlainPrefix | Certificate.php:245-247 | backslash-free text passes through unchanged and decoding resumes after it |
| Escapes.NoMatchPrefix | Certificate.php:245-247 | text in which no match starts passes through unchanged, backslashes included, and decoding resumes after it |
| Escapes.StrayPairNoMatch | Certificate.php:245 | a backslash followed by a character other than x, then a backslash, starts no match |
| Escapes.StrayBackslash | Certificate.php:245-247 | a backslash and a character other than x before a match pass through unchanged, and the match still decodes to its byte |
| Escapes.StrayBackslashExample | Certificate.php:243-249 | `\q\x41` decodes to `\qA` |
| Escapes.ThreeEscapes | Certificate.php:245-247 | backslash-free text followed by three two-digit escapes decodes to the text followed by the three bytes, left to right |
| Escapes.CompanyExample | Certificate.php:243-249 | `Company \x41\x42\x43` decodes to `Company ABC`, and so does any backslash-free prefix before those escapes |
| Escapes.NotRescanned | Certificate.php:245-247 | after a match, the rest is decoded on its own, whatever byte the match produced |
| Escapes.BackslashNotRescanned | Certificate.php:245-247 | `\x5c` yields a backslash that does not start a new match, so `\x5cx41` decodes to the four characters `\x41` |
| DistinguishedName.OidAliasesInjective | Certificate.php:152-161 | no two OIDs of the table share an alias, and "webslon" is not an OID of it |
| DistinguishedName.EntryWithoutEquals | Certificate.php:164-165 | a segment without '=' contributes nothing |
| DistinguishedName.EntryOf | Certificate.php:164-173 | "key=v" contributes the key and the trimmed v, except a "subject" or "issuer" segment whose trimmed value is "" or "0" |
| DistinguishedName.AliasesFollowAttributes | Certificate.php:175-180 | for an injective table, an alias is present exactly when its OID is among the attributes, it holds the OID's value (INN without leading zeros), and no other key appears |
| DistinguishedName.ParseDnAttributes | Certificate.php:163-173 | every key other than "webslon" is present exactly when some segment contributes it, and it holds the value of the last such segment |
| DistinguishedName.ParseDnAliases | Certificate.php:175-183 | "webslon" is always present and holds the alias array; each alias is present exactly when its OID is, with the OID's text (INN stripped of leading zeros while the OID's own entry keeps them); only table aliases appear |
| DistinguishedName.SegmentStep | Certificate.php:163-181 | what one segment adds to the attribute array and to the alias array |
| DistinguishedName.OrganizationToArray | Certificate.php:140-186 | null for null, otherwise the escape-decoded, '/'-split text parsed as the specification `ParseDn` states |
| DistinguishedName.CollectSegments | Certificate.php:163-181 | the loop leaves the attribute array and the alias array equal to their folds over the segments |
| Validity.DatesLastWins | Certificate.php:103-113 | the dates array holds exactly the keys of the lines that hold '=', each with the trimmed value of the last such line |
| Validity.ExplodeTwoLines | Certificate.php:103 | two lines, each ended by a line break, split into the two lines and a last empty piece |
| Validity.AssignTwoLines | Certificate.php:105-113 | two lines with distinct keys and one line that assigns nothing give exactly the two entries |
| Validity.TwoLines | Certificate.php:100-116 | two "key=value" lines with distinct keys parse to exactly those keys with their trimmed values |
| Validity.TwoLineDates | Certificate.php:98-118 | the tool's notBefore/notAfter output parses to exactly the two trimmed dates |
| Validity.WindowValidIff | Certificate.php:56-78 | the check passes exactly when only notBefore and notAfter occur, each bound that is present holds inclusively, and a missing key is not required |
| Validity.TwoLineValidity | Certificate.php:56-78 | for the tool's two-line output the check is exactly notBefore <= now <= notAfter |
| Validity.LineStep | Certificate.php:105-113 | what one line adds to the dates array |
| Validity.ParseDates | Certificate.php:100-116 | null exactly for a null output, otherwise the array the lines build |
| Validity.AssignLines | Certificate.php:105-113 | the loop's array equals the fold of the lines |
| Validity.IsValidWindow | Certificate.php:58-77 | the loop returns false for null dates, and stops with false at the first entry that fails, so it returns true exactly when every entry passes, whatever order the entries come in |
| Loading.LoadFromStart | Certificate.php:188-241 | from the constructor's state, load succeeds exactly when the file reads as PEM or DER, or unwraps into a temporary file that does; success, loaded and a format go together; PEM wins over DER; the temporary file is set only after an unwrap of an unreadable file; every query runs on the file that was read |
| Loading.NoSecondUnwrap | Certificate.php:211-218 | once a temporary file exists, load never unwraps again: its outcome ignores the pkcs7 command and the temporary name, and the temporary file stays |
| Loading.Load | Certificate.php:188-241 | the step-by-step load leaves the state and the result that `LoadSpec` gives |
| CertificateRecord.Certificate.constructor | Certificate.php:24-28 | the new record holds the state load leaves from the file name, every cache is empty, and the cache invariant holds |
| CertificateRecord.Certificate.GetSubject | Certificate.php:80-87 | returns the parsed subject and keeps it in its cache; a filled cache never changes; no other field changes |
| CertificateRecord.Certificate.GetIssuer | Certificate.php:89-96 | returns the parsed issuer and keeps it in its cache; a filled cache never changes; no other field changes |
| CertificateRecord.Certificate.GetDates | Certificate.php:98-118 | returns the parsed dates, null for a null output, and keeps them in the cache; a filled cache never changes |
| CertificateRecord.Certificate.GetHash | Certificate.php:120-128 | returns the trimmed hash, or null for a null output, and keeps it in the cache; a filled cache never changes |
| CertificateRecord.Certificate.GetFingerprint | Certificate.php:130-138 | returns the trimmed fingerprint, or null for a null output, and keeps it in the cache; a filled cache never changes |
| CertificateRecord.Certificate.IsValid | Certificate.php:56-78 | the result is the validity check over the parsed dates, and the dates cache is filled as getDates fills it |
| CertificateRecord.Certificate.GetAll | Certificate.php:37-54 | the snapshot always holds loaded, fileName and tmpFileName; it holds validity, subject, issuer, dates, hash and fingerprint exactly when loaded, equal to what the getters return; for a loaded record every cache afterwards holds its view, and a cache already filled keeps its value; an unloaded record is left untouched |

## Left out

- Process and file I/O. `shell_exec`, `tempnam` and `file_put_contents` become the `Tool`
  oracle and the `tempName` parameter. A failing `tempnam` is not modelled.
- The destructor's `unlink` of the temporary file (Certificate.php:30-35). It is file I/O
  and changes no field.
- `time()` and `strtotime`, which become the parameters `now` and `parseTime`.
  `strtotime` returning `false`, and PHP's loose comparison of that `false` with an
  integer, are library behaviour that is not modelled.
- Loading.Load: in the source, load writes the object's fields in place. Here it runs on
  a record of those fields inside the constructor, and the raw fields are `const`
  afterwards. The source calls load only from the constructor, and the fields never
  change after it.
- An error from the regular-expression engine. Under the `/u` flag, input that is not
  valid UTF-8 makes `preg_replace_callback` return null. The model treats strings as
  sequences of byte-valued characters.
- Escapes.ConvertXcodes: `hexdec` switching to a float for very long hex runs is not
  modelled. Runs are decoded on unbounded integers.
- The quoting of `$fileName` in the shell commands. That is a security concern, not logic
  of the class.
- The order of PHP arrays. All arrays are Dafny maps, and no stated result depends on
  order.
- PHP's conversion of numeric-string keys such as `"123"` into integer keys. Keys stay
  strings.
- The exact shape of `getAll`'s array. It becomes the `Snapshot` datatype, whose optional
  `Details` holds the entries present only for a loaded record.
