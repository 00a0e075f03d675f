# git-credential codec, modelled in Dafny

This project models the core of the Rust crate `git_credential`, which reads and writes
the line format of git credential helpers. A record (`GitCredential`) holds six optional
attributes: `url`, `protocol`, `host`, `path`, `username` and `password`.

- **Reading** (`from_reader`) goes through the input line by line.
  - It stops at the first empty line or at the end of the input.
  - It cuts each line at every `=`.
  - A line that gives exactly a key and a value sets the named field, verbatim. A `url`
    value goes through the URL parser.
  - Any other line, and any unknown key, is skipped.
  - A `url` value the parser rejects fails the read with `ParseError` carrying the value.
- **Writing** (`to_writer`) emits one `key=value` line per set field, in the fixed order
  url, protocol, host, path, username, password, and then one empty line.

Modules, one file each:

- `wrappers.dfy` (`Wrappers`): `Option` and `Result`.
- `text.dfy` (`Text`): the two standard-library functions the reader relies on.
  - `str::split_terminator` is `SplitTerminator`, defined through `Split`, characterised
    through `Join`.
  - `BufRead::lines` is `Lines`. It splits on `\n` and drops one `\r` before each
    newline. A final line without a newline is kept as it is.
  - `Unlines` is the way the writer lays lines out.
- `credential.dfy` (`Credential`): the record, its default, the keys and their wire
  names, and the error type.
- `reader.dfy` (`Reader`): `FromReader`, and a reference description of it. The reference
  keeps the lines before the first empty one (`Active`), keeps the attributes they carry
  (`Recognised`), and stores those attributes in order (`Store`).
- `writer.dfy` (`Writer`): `ToWriter`, and a reference description of it. The reference
  lists the set fields as attributes in key order (`Entries`) and writes each as one line.
- `roundtrip.dfy` (`RoundTrip`): writing then reading, and reading then writing.
- `scenarios.dfy` (`Scenarios`): the documentation examples and the unit tests, on their
  concrete texts.

The URL type is a type parameter `U`. `UrlSyntax` bundles two functions, `parse` for
`Url::parse` and `render` for the URL's `Display`. Nothing is assumed about either, and
where a property needs them to agree it says so in its precondition.

The code cuts a line at every `=` (`split_terminator('=')`), not only at the first one,
and the model follows the code:

- A line whose value holds a `=`, such as `password=a=b`, gives three pieces and is
  skipped (`Reader.ValueWithSeparatorSkipped`).
- `key=` gives one piece, so an empty value is skipped (`Reader.EmptyValueSkipped`).
- `key=value=` loses its trailing separator and is read as `key=value`.

A value can therefore be written but not read back when it is empty, holds a `=`, holds
a newline, or ends with a carriage return. The round-trip lemmas take exactly these
conditions as their precondition (`RoundTrip.Writable`).

## Model

| member | source | states |
|---|---|---|
| Credential.Default | src/lib.rs:67-79 | The default record has every field unset: the url and each of the five string fields. |
| Credential.KeyNamed | src/lib.rs:109-121 | A key name is matched exactly: the key found has that name, and no key is found only when no key has that name. |
| Credential.NameProperties | src/lib.rs:110-120 | Each of the six wire names maps back to its own key, is non-empty, and holds no `=`, newline or carriage return. |
| Credential.Set | src/lib.rs:116-120 | Storing a string attribute puts the value verbatim in its field and leaves the url and every other field unchanged. |
| Credential.OrderedUnique | src/lib.rs:145-165 | Two attribute lists in strictly increasing key order with the same members are equal. This is what makes the writer's output unique. |
| Text.SplitTerminator | src/lib.rs:104 | No piece that `split_terminator` gives holds the separator. |
| Text.SplitIff | src/lib.rs:104 | Splitting at a separator gives exactly the separator-free pieces that join back to the text. |
| Text.SplitTerminatorPair | src/lib.rs:104-105 | `split_terminator` gives exactly `[k, v]` iff neither piece holds the separator and the text is `k=v` with `v` non-empty, or `k=v=`. |
| Text.SplitTerminatorNoSeparator | src/lib.rs:104 | A text without the separator gives itself as the one piece, and the empty text gives no piece. |
| Text.SplitTerminatorTrailingSeparator | src/lib.rs:104 | A trailing separator is dropped: `k=v=` gives `["k", "v"]`. |
| Text.SplitTerminatorEmptyKey | src/lib.rs:104 | An empty key survives: `=v` gives `["", "v"]`. |
| Text.Lines | src/lib.rs:96-97 | No line that `lines()` hands out holds a newline. |
| Text.LinesUnlines | src/lib.rs:96-97 | Newline-free lines, each written with a newline, are read back one by one, each without one trailing carriage return, whatever follows. |
| Text.LinesBlankAfter | src/lib.rs:97-103 | After written lines, an empty line is handed out as the line `""` right after them, before the lines of whatever follows. |
| Reader.Recognise | src/lib.rs:104-124 | A line carries an attribute only as `name=value` with a non-empty value, or `name=value=`, the value free of `=`. |
| Reader.RecogniseIff | src/lib.rs:104-124 | A line carries attribute `(k, v)` iff it is `name(k)=v` with `v` non-empty and free of `=`, or `name(k)=v=`. |
| Reader.NoSeparatorSkipped | src/lib.rs:104-124 | A line without `=` carries no attribute. |
| Reader.UnknownKeySkipped | src/lib.rs:121 | A line whose key is not one of the six names carries no attribute, whatever its value. |
| Reader.EmptyValueSkipped | src/lib.rs:104-124 | A line `key=` carries no attribute, so the field keeps what it had. |
| Reader.ValueWithSeparatorSkipped | src/lib.rs:104-124 | A line `key=a=b` with `b` non-empty gives three pieces and carries no attribute. |
| Reader.Apply | src/lib.rs:109-121 | Storing an attribute fails exactly on a `url` value the parser rejects, with `ParseError` carrying that value. A `url` value otherwise sets the url to its parse. A string value sets its own field verbatim. No other field changes. |
| Reader.ParseLines | src/lib.rs:97-127 | A failed read names a `url` value that the parser rejects and that a line before the first empty line carries. |
| Reader.FromReader | src/lib.rs:94-128 | Reading a text stores into the default record, in order, the attributes carried by its lines before the first empty line. |
| Reader.Active | src/lib.rs:99-103 | The lines looked at are a prefix of the input holding no empty line, and the line just after them, if any, is empty. |
| Reader.ParseLinesIsStore | src/lib.rs:94-128 | The reading loop stores, in order, the attributes carried by the lines before the first empty line. |
| Reader.StoreOutcome | src/lib.rs:110-114 | Storing attributes succeeds iff no `url` value is rejected. On failure, the error is `ParseError` of the first rejected value. |
| Reader.StoreLastWins | src/lib.rs:107-120 | After a successful read, each string field holds the value of the last attribute with its key, or is unset when there is none. The url is the parse of the last `url` value. |
| Reader.LastOrdered | src/lib.rs:116-120 | In a list in strictly increasing key order, hence with no repeated key, the last value for a key is its only value. |
| Reader.ParseStopsAtBlank | src/lib.rs:99-103 | Whatever follows the first empty line, a rejected `url` included, does not change the outcome. |
| Reader.ParseSkipsLine | src/lib.rs:121-124 | A non-empty line that carries no attribute can be removed from anywhere in the input without changing the outcome. |
| Reader.FromReaderStopsAtBlankLine | src/lib.rs:97-103 | On text: lines followed by an empty line read the same whatever text comes after. |
| Reader.FromReaderLines | src/lib.rs:94-103 | On text: lines, each with its newline, then the empty line, are read as exactly those lines. |
| Reader.FromReaderWithoutBlankLine | src/lib.rs:97-127 | On text: input ending without the empty line, or with a last line that has no newline, is still read, as its lines. |
| Writer.ToWriter | src/lib.rs:145-170 | The output always ends with the empty line: it is a lone newline or ends with two newlines. |
| Writer.EntriesOf | src/lib.rs:148-165 | Each field listed is shown with the text it is written with, and every set field among the keys appears. When the keys are in ascending rank, the attributes are in key order. |
| Writer.Entries | src/lib.rs:145-165 | The written attributes are every set field exactly once, with its wire text (the rendered URL for `url`), in the order url, protocol, host, path, username, password. |
| Writer.ToWriterLayout | src/lib.rs:145-170 | The writer's output is one `name=value` line per attribute of `Entries`, then one empty line. |
| RoundTrip.EntryLineRead | src/lib.rs:104-164 | A written attribute line with a writable value is read back as that attribute. |
| RoundTrip.ReadWrittenEntries | src/lib.rs:94-170 | Reading written attribute lines plus the empty line stores those attributes into the default record. |
| RoundTrip.StoreEntries | src/lib.rs:94-170 | Storing a well-formed record's own attributes into the default record rebuilds the record. |
| RoundTrip.RoundTrip | src/lib.rs:94-170 | Reading what the writer wrote gives back the record, for every record whose values are writable and whose URL parses back from its rendering. |
| RoundTrip.ReadCanonicalEntries | src/lib.rs:94-170 | The record read from a canonical input shows exactly that input's attributes. |
| RoundTrip.CanonicalRoundTrip | src/lib.rs:209-216 | Reading a canonical input succeeds, and writing the record gives back the input text. Canonical means key order, no repeats, writable values, and URL texts that render as they parse. |
| Scenarios.WriteDefault | src/lib.rs:67-79 | The default record, every field unset, is written as `"\n"`. |
| Scenarios.WriteUserAndPassword | src/lib.rs:132-143 | The documentation example: username `me` and password `%sec&ret!` are written as `"username=me\npassword=%sec&ret!\n\n"`. |
| Scenarios.ReadUserAndPassword | src/lib.rs:84-93 | The documentation example: `"username=me\npassword=%sec&ret!\n\n"` reads as that username and password, nothing else set. |
| Scenarios.WriteFullRecord | src/lib.rs:194-207 | The full record is written as its six lines in the fixed order, then the empty line. |
| Scenarios.ReadShuffledRecord | src/lib.rs:179-192 | The six lines in another order, url last, read as the full record. |
| Scenarios.ReadAndWriteAgain | src/lib.rs:209-216 | The writer's text for the full record reads successfully, and writing the result gives back the same text. |

## Left out

- Read and write failures are not modelled. The input is a string and the output a string, so `ReadError`, `WriteError` and invalid UTF-8 in the input do not arise.
- `ParseError` does not carry the URL parser's own error (`source: url::ParseError`). The URL parser is abstract and only reports that it rejected the text.
- The `url` crate's parsing and rendering are not modelled. They are the parameters `parse` and `render`, about which nothing is assumed.
- The `debug!` and `warn!` logging calls are not modelled. Skipped lines and unknown keys leave no trace in the model.
- The example binary `examples/git-credential-env.rs` is not part of this model.
- The README doctest macro (`src/lib.rs:174`) and the derived `Debug` implementations are not part of this model.
- Writer.ToWriter: returns the text rather than writing it to a sink, so `to_writer`'s `Result<()>` is not modelled.
