# minigrep, modelled in Dafny

minigrep is a small command-line substring search: `minigrep <query> <filename> [i]`
prints every line of the file that contains the query. The search can be made
case-insensitive. This project models the decision logic of its library
`src/lib.rs`:

- `Config::new` resolves the command line and the `CASE_INSENSITIVE`
  environment variable into a `Config` (query, file name, case sensitivity),
  or fails with an error message.
- `search` keeps, in order, the lines of the file's text that contain the
  query.
- `search_case_insensitive` does the same after lower-casing both the line and
  the query.
- `run` picks one of the two searches from the configuration.

Files:

- `wrappers.dfy` (module `Wrappers`): `Option` and `Result`.
- `seqs.dfy` (module `Seqs`): the order-preserving `Filter` that
  `lines().filter(..).collect()` performs, and the subsequence relation
  `IsSubseq` that describes its result.
- `text.dfy` (module `Text`): the standard-library string operations the
  searches use. `Lines` models `str::lines`, `Contains` and `Find` model
  `str::contains`, and `Lower` models `str::to_lowercase` for ASCII only.
- `minigrep.dfy` (module `Minigrep`): `Config`, `NewConfig`, `Search`,
  `SearchCaseInsensitive`, `Matches`, their properties, and the two search
  tests of `src/lib.rs`.

Modelling choices:

- The arguments are a `seq<string>`. `Config::new` takes the `std::env::Args`
  iterator (src/lib.rs:35). The tests pass it `&args`, a `&Vec<String>`
  (src/lib.rs:90 and 105). That does not match the parameter type, so the test
  module as written does not compile. A sequence of the argument strings
  abstracts both the iterator and the vector the tests meant to pass.
- The environment lookup is an injected `VarLookup`. It mirrors what
  `env::var` returns: `Present(value)`, `NotPresent` or `NotUnicode`.
- The code tests `env::var("CASE_INSENSITIVE").is_err()`. So the search is
  case-insensitive exactly when the variable holds a valid Unicode value,
  whatever that value is (the empty string included). A variable that is set
  but not valid Unicode makes the lookup fail, and the search stays
  case-sensitive.
- Both missing-argument cases return the same literal message, `"Didn't get a
  query string"`, as the code does (see Findings).
- `Lines` follows the behaviour of `str::lines` in Rust 1.77 and later (the
  repository pins no toolchain):
  - a line ends at `\n` or at `\r\n`;
  - the last line needs no ending, and a final ending adds no empty line;
  - empty text has no lines;
  - a lone `\r` at the very end, with no `\n` after it, stays part of the last
    line. Earlier releases dropped that `\r` too; that behaviour is not
    modelled.
- The searches return line values, not borrowed slices.

## Model

| member | source | states |
|---|---|---|
| Minigrep.NewConfig | src/lib.rs:35-63 | fewer than two arguments or exactly two both fail with "Didn't get a query string"; with three or more it succeeds with the query from args[1] and the file name from args[2]; a fourth argument "i" forces case-insensitive; otherwise case-sensitive exactly when the CASE_INSENSITIVE lookup fails |
| Minigrep.NewConfigExample | src/lib.rs:88-98 | the arguments system, apple, poem.txt resolve to a configuration whose query is "apple" |
| Minigrep.NewConfigIgnoresProgramName | src/lib.rs:37 | the first argument is skipped: replacing it never changes the result |
| Minigrep.NewConfigIgnoresExtraArgs | src/lib.rs:49-61 | arguments after the fourth never change the result |
| Minigrep.NewConfigEnvPresenceOnly | src/lib.rs:54-57 | only whether the environment lookup fails matters, not the value found (an empty value counts as set) |
| Minigrep.MissingFilenameLooksLikeMissingQuery | src/lib.rs:39-47 | a missing query and a missing file name give the same error |
| Minigrep.NewConfigChecked | src/lib.rs:39-47 | corrected resolution: a missing query gives MissingQuery, a missing file name gives MissingFilename, and every success is the same as NewConfig's |
| Minigrep.NewConfigCheckedDistinguishesErrors | src/lib.rs:44-47 | with the corrected errors, the two missing-argument failures differ |
| Minigrep.Search | src/lib.rs:67-72 | every returned line contains the query; every line of the text that contains it is returned; the result is an order-preserving subsequence of the lines, so no longer than them; empty text gives no lines |
| Minigrep.SearchMultiplicity | src/lib.rs:69-71 | each line containing the query is returned as often as it occurs in the text; no other line is returned |
| Minigrep.SearchEmptyQuery | src/lib.rs:69-71 | the empty query returns every line of the text, in order |
| Minigrep.PoemText | src/lib.rs:127-131 | the test text built from its lines is the Rust literal: each line before the last is followed by the `\n` escape and the source file's own line break |
| Minigrep.PoemLines | src/lib.rs:127-131 | the test text splits into its three text lines, each followed by a blank line, and then the last line |
| Minigrep.SearchExample | src/lib.rs:124-134 | search("duct", test text ending "Duct tape.") is exactly ["safe, fast, productive."] |
| Minigrep.SearchCaseInsensitive | src/lib.rs:74-80 | a line is returned if and only if its lower-cased form contains the lower-cased query; the result is an order-preserving subsequence of the lines; empty text gives no lines |
| Minigrep.SearchCaseInsensitiveMultiplicity | src/lib.rs:76-78 | each matching line is returned as often as it occurs in the text; no other line is returned |
| Minigrep.SearchCaseInsensitiveIgnoresQueryCase | src/lib.rs:77 | the result does not depend on the query's case: searching for the lower-cased query gives the same lines |
| Minigrep.SearchWithinCaseInsensitive | src/lib.rs:67-80 | for the model's per-character ASCII lower-casing, the case-sensitive result is a subsequence of the case-insensitive result for the same query and text |
| Minigrep.SearchCaseInsensitiveExample | src/lib.rs:138-150 | search_case_insensitive("rUsT", test text ending "Trust me.") is exactly ["Rust:", "Trust me."] |
| Minigrep.Matches | src/lib.rs:9-13 | run's choice is search when the configuration is case-sensitive and search_case_insensitive otherwise; the chosen lines are an order-preserving subsequence of the text's lines; they all contain the query (case-sensitive config) or contain it after lower-casing (case-insensitive config); for the model's per-character ASCII lower-casing, every line that contains the query exactly is chosen in either mode |
| Minigrep.MatchesWithInsensitiveFlag | src/lib.rs:9-13 | with a fourth argument "i", configuration succeeds and run's choice is the case-insensitive search for args[1], whatever the environment holds |
| Text.Lines | src/lib.rs:69 | empty text has no lines, and non-empty text has at least one; no line contains a line feed |
| Text.LinesOfJoined | src/lib.rs:69 | lines written one per line, each ended by a line feed, are split back into exactly those lines |
| Text.LinesOfJoinedThenLast | src/lib.rs:69 | terminated lines followed by an unterminated non-empty last line are split back into those lines and then the last one |
| Text.LinesFinalNewline | src/lib.rs:69 | a final line feed adds no empty line |
| Text.LinesFinalCrLf | src/lib.rs:69 | a final `\r\n` adds no empty line either |
| Text.Find | src/lib.rs:70 | finds an occurrence exactly when the query is a substring of the line; the position returned is the first occurrence |
| Text.ContainsLower | src/lib.rs:77 | an occurrence survives the model's per-character ASCII lower-casing of line and query, so with it case-insensitive matching accepts every case-sensitive match |
| Text.LowerIdempotent | src/lib.rs:77 | lower-casing twice is the same as lower-casing once |
| Seqs.Filter | src/lib.rs:69-71 | every kept element satisfies the predicate; every element that satisfies it is kept; the result is a subsequence of the input |
| Seqs.FilterMultiset | src/lib.rs:69-71 | each element that satisfies the predicate is kept exactly as often as it occurs; every other element is dropped |
| Seqs.FilterUnique | src/lib.rs:69-71 | any subsequence with those multiplicities equals the filter's result, so the contract fully determines it |
| Seqs.SubseqMultiset | src/lib.rs:69-71 | a subsequence is no longer than its source and holds no element more often than it |
| Seqs.FilterExtensional | src/lib.rs:70 | filtering depends only on the predicate's values at the elements |
| Seqs.FilterMonotone | src/lib.rs:70 | a predicate implied by another keeps a supersequence of what the other keeps |
| Seqs.FilterAll | src/lib.rs:70 | a predicate that holds of every element keeps the whole sequence |

## Left out

- Reading the file in `run` (src/lib.rs:7) and the `?` that propagates its error. This is file I/O with no logic of its own, so the file's text is a parameter of `Matches`.
- The printing loop in `run` (src/lib.rs:15-19). It is only output to stdout.
- The real `env::var` call and the `std::env::Args` iterator. They are replaced by a `VarLookup` parameter and a `seq<string>`.
- `Box<dyn Error>`, and the `&'static str` and `&'a str` lifetimes. Results are string values; borrowing is not modelled.
- The test `run_works` (src/lib.rs:101-121). It needs a `poem.txt` file on disk.
- Minigrep.SearchCaseInsensitive: lower-casing is ASCII only (`A`-`Z` to `a`-`z`). Rust's `to_lowercase` uses the full Unicode tables and can change a string's length. Those tables are not part of this model.
- Minigrep.SearchWithinCaseInsensitive: holds only for per-character lower-casing. Rust's `to_lowercase` depends on context: a capital sigma `Σ` at the end of a word becomes `ς`, elsewhere `σ`. So `search("Σ", "ΑΣ")` returns `["ΑΣ"]`, but `search_case_insensitive("Σ", "ΑΣ")` asks whether `"ας"` contains `"σ"` and returns `[]`.
- Minigrep.Matches: its last ensures (every exact match is chosen in either mode) holds only for per-character lower-casing. With Rust's `to_lowercase`, the case-insensitive configuration with query `"Σ"` and text `"ΑΣ"` chooses no line, although `"ΑΣ"` contains `"Σ"`.
- Text.ContainsLower: holds only for per-character lower-casing. With Rust's `to_lowercase`, `"ΑΣ"` contains `"Σ"`, but its lower-cased form `"ας"` does not contain `"σ"`.
- Text.Find: it scans the positions one by one and returns the first position where the query occurs. The standard library uses a faster substring search, and `str::contains` only answers yes or no. The searches do not call `Find`: they use the predicate `Contains`, and `Find` is proved to agree with it.

## Findings

| source | as written | input that shows it | evidently intended | confidence | as-written member | corrected member |
|---|---|---|---|---|---|---|
| src/lib.rs:44-47 | a missing file name returns the message "Didn't get a query string", the same as a missing query | arguments `["minigrep", "needle"]`: the query is there but the error says it is missing | a separate error for the missing file name | medium — the message is evidently copied from src/lib.rs:41; not executed | Minigrep.MissingFilenameLooksLikeMissingQuery | Minigrep.NewConfigChecked |
