/** The decision logic of minigrep's library: turning the command line and the
    `CASE_INSENSITIVE` environment variable into a search configuration, and
    picking out the lines of a file's text that contain the query. */
module Minigrep {
  import opened Wrappers
  import opened Seqs
  import opened Text

  /** The resolved search configuration. */
  datatype Config = Config(query: string, filename: string, caseSensitive: bool)

  /** What reading an environment variable gives: its value, or one of the two
      reasons `env::var` fails — the variable is not set, or its value is not
      valid Unicode. */
  datatype VarLookup = Present(value: string) | NotPresent | NotUnicode {
    /** The lookup failed, for either reason. */
    predicate IsErr() {
      !Present?
    }
  }

  /** The message `Config::new` returns when an argument is missing. */
  const MissingArgument: string := "Didn't get a query string"

  /** The literal fourth argument that asks for a case-insensitive search. */
  const InsensitiveFlag: string := "i"

  /** `Config::new`: the argument after the program name is the query, the
      next one the file name; a fourth argument `i` forces a case-insensitive
      search, and otherwise the search is case-sensitive exactly when the
      lookup of `CASE_INSENSITIVE` fails. Arguments past the fourth are
      ignored. */
  function NewConfig(args: seq<string>, caseInsensitiveVar: VarLookup): (r: Result<Config, string>)
    ensures |args| < 2 ==> r == Failure(MissingArgument)
    ensures |args| == 2 ==> r == Failure(MissingArgument)
    ensures r.Success? <==> |args| >= 3
    ensures r.Success? ==> r.value.query == args[1] && r.value.filename == args[2]
    ensures |args| >= 4 && args[3] == InsensitiveFlag ==> r.Success? && !r.value.caseSensitive
    ensures |args| >= 3 && !(|args| >= 4 && args[3] == InsensitiveFlag) ==>
              r.Success? && (r.value.caseSensitive <==> caseInsensitiveVar.IsErr())
  {
    if |args| < 2 then Failure(MissingArgument)
    else if |args| < 3 then Failure(MissingArgument)
    else
      var caseSensitive :=
        if |args| >= 4 then
          if args[3] == InsensitiveFlag then false else caseInsensitiveVar.IsErr()
        else caseInsensitiveVar.IsErr();
      Success(Config(args[1], args[2], caseSensitive))
  }

  /** The configuration test: the query is the second argument. */
  lemma NewConfigExample(v: VarLookup)
    ensures NewConfig(["system", "apple", "poem.txt"], v).Success?
    ensures NewConfig(["system", "apple", "poem.txt"], v).value.query == "apple"
  {
  }

  /** The program name is never looked at. */
  lemma NewConfigIgnoresProgramName(args: seq<string>, name: string, v: VarLookup)
    requires |args| > 0
    ensures NewConfig(args[0 := name], v) == NewConfig(args, v)
  {
  }

  /** Arguments after the fourth never change the configuration. */
  lemma NewConfigIgnoresExtraArgs(args: seq<string>, extra: seq<string>, v: VarLookup)
    requires |args| >= 4
    ensures NewConfig(args + extra, v) == NewConfig(args, v)
  {
  }

  /** Only whether the lookup fails matters, not the value found: an empty
      value counts as set, just as any other does. */
  lemma NewConfigEnvPresenceOnly(args: seq<string>, a: VarLookup, b: VarLookup)
    requires a.IsErr() == b.IsErr()
    ensures NewConfig(args, a) == NewConfig(args, b)
  {
  }

  /** A missing query and a missing file name cannot be told apart by their
      errors: both calls fail with the same message. */
  lemma MissingFilenameLooksLikeMissingQuery(v: VarLookup)
    ensures NewConfig(["minigrep"], v) == NewConfig(["minigrep", "needle"], v)
    ensures NewConfig(["minigrep", "needle"], v).Failure?
  {
  }

  /** Why a configuration could not be built, one kind per missing argument. */
  datatype ConfigError = MissingQuery | MissingFilename

  /** `Config::new` with each missing argument reported as its own error. */
  function NewConfigChecked(args: seq<string>, caseInsensitiveVar: VarLookup): (r: Result<Config, ConfigError>)
    ensures |args| < 2 ==> r == Failure(MissingQuery)
    ensures |args| == 2 ==> r == Failure(MissingFilename)
    ensures r.Success? <==> NewConfig(args, caseInsensitiveVar).Success?
    ensures r.Success? ==> r.value == NewConfig(args, caseInsensitiveVar).value
  {
    if |args| < 2 then Failure(MissingQuery)
    else if |args| < 3 then Failure(MissingFilename)
    else Success(NewConfig(args, caseInsensitiveVar).value)
  }

  /** With distinct error kinds the two failures are told apart. */
  lemma NewConfigCheckedDistinguishesErrors(v: VarLookup)
    ensures NewConfigChecked(["minigrep"], v) != NewConfigChecked(["minigrep", "needle"], v)
  {
  }

  /** `search`: the lines of `contents` that contain `query`, in order. Every
      returned line contains the query and every line of `contents` that
      contains it is returned. */
  function Search(query: string, contents: string): (r: seq<string>)
    ensures forall line :: line in r ==> Contains(line, query)
    ensures forall line :: line in Lines(contents) && Contains(line, query) ==> line in r
    ensures IsSubseq(r, Lines(contents))
    ensures |r| <= |Lines(contents)|
    ensures contents == "" ==> r == []
  {
    var r := Filter(Lines(contents), line => Contains(line, query));
    SubseqMultiset(r, Lines(contents));
    r
  }

  /** `search` returns each line containing the query as often as it occurs
      in `contents` (duplicates are kept), and no other line. */
  lemma {:induction false} SearchMultiplicity(query: string, contents: string)
    ensures forall line :: multiset(Search(query, contents))[line] ==
              if Contains(line, query) then multiset(Lines(contents))[line] else 0
  {
    FilterMultiset(Lines(contents), line => Contains(line, query));
  }

  /** The lines before the last in the text of the two search tests
      (src/lib.rs:127-131 and 141-145): each source line of the Rust literal
      ends in a `\n` escape followed by the file's own line break, so a blank
      line follows every text line. */
  const PoemHead: seq<string> := ["Rust:", "", "safe, fast, productive.", "", "Pick three.", ""]

  /** The test text, ending in `lastLine` with no line feed after it. */
  function PoemWith(lastLine: string): string {
    JoinTerminated(PoemHead) + lastLine
  }

  /** The test text is the Rust literal of src/lib.rs:127-131 and 141-145:
      every line before the last ends in the `\n` escape and then in the line
      break of the source file itself. */
  lemma PoemText(lastLine: string)
    ensures PoemWith(lastLine) ==
            "Rust:" + "\n" + "\n" + "safe, fast, productive." + "\n" + "\n" +
            "Pick three." + "\n" + "\n" + lastLine
  {
    assert PoemHead[1..][1..][1..][1..][1..][1..] == [];
  }

  /** The lines of the test text, blank lines included. */
  lemma PoemLines(lastLine: string)
    requires lastLine != "" && '\n' !in lastLine
    ensures Lines(PoemWith(lastLine)) ==
            ["Rust:", "", "safe, fast, productive.", "", "Pick three.", "", lastLine]
  {
    LinesOfJoinedThenLast(PoemHead, lastLine);
  }

  /** "duct" occurs in the line about productivity and in no other test line. */
  lemma DuctOccurrences()
    ensures Contains("safe, fast, productive.", "duct")
    ensures !Contains("Rust:", "duct") && !Contains("", "duct")
    ensures !Contains("Pick three.", "duct") && !Contains("Duct tape.", "duct")
  {
    assert OccursAt("safe, fast, productive.", "duct", 15);
    NotContainsMissingChar("Rust:", "duct", 'd');
    NotContainsMissingChar("", "duct", 'd');
    NotContainsMissingChar("Pick three.", "duct", 'd');
    NotContainsMissingChar("Duct tape.", "duct", 'd');
  }

  /** The case-sensitive test: only the line holding "productive" contains
      "duct"; "Duct tape." does not, because of its capital letter. */
  lemma SearchExample()
    ensures Search("duct", PoemWith("Duct tape.")) == ["safe, fast, productive."]
  {
    var ls := ["Rust:", "", "safe, fast, productive.", "", "Pick three.", "", "Duct tape."];
    var p := (line: string) => Contains(line, "duct");
    PoemLines("Duct tape.");
    DuctOccurrences();
    assert Filter(ls[6..], p) == [];
    assert Filter(ls[5..], p) == [];
    assert Filter(ls[4..], p) == [];
    assert Filter(ls[3..], p) == [];
    assert Filter(ls[2..], p) == ["safe, fast, productive."];
    assert Filter(ls[1..], p) == ["safe, fast, productive."];
  }

  /** An empty query matches every line. */
  lemma SearchEmptyQuery(contents: string)
    ensures Search("", contents) == Lines(contents)
  {
    forall line | line in Lines(contents) ensures Contains(line, "") {
      ContainsEmpty(line);
    }
    FilterAll(Lines(contents), line => Contains(line, ""));
  }

  /** `search_case_insensitive`: the lines of `contents` whose lower-cased
      form contains the lower-cased query, in order. */
  function SearchCaseInsensitive(query: string, contents: string): (r: seq<string>)
    ensures forall line :: line in r ==> Contains(Lower(line), Lower(query))
    ensures forall line :: line in Lines(contents) && Contains(Lower(line), Lower(query)) ==> line in r
    ensures IsSubseq(r, Lines(contents))
    ensures |r| <= |Lines(contents)|
    ensures contents == "" ==> r == []
  {
    var r := Filter(Lines(contents), line => Contains(Lower(line), Lower(query)));
    SubseqMultiset(r, Lines(contents));
    r
  }

  /** `search_case_insensitive` returns each matching line as often as it
      occurs in `contents`, and no other line. */
  lemma {:induction false} SearchCaseInsensitiveMultiplicity(query: string, contents: string)
    ensures forall line :: multiset(SearchCaseInsensitive(query, contents))[line] ==
              if Contains(Lower(line), Lower(query)) then multiset(Lines(contents))[line] else 0
  {
    FilterMultiset(Lines(contents), line => Contains(Lower(line), Lower(query)));
  }

  /** The case of the query does not matter to the case-insensitive search. */
  lemma SearchCaseInsensitiveIgnoresQueryCase(query: string, contents: string)
    ensures SearchCaseInsensitive(query, contents) == SearchCaseInsensitive(Lower(query), contents)
  {
    LowerIdempotent(query);
    FilterExtensional(Lines(contents),
                      line => Contains(Lower(line), Lower(query)),
                      line => Contains(Lower(line), Lower(Lower(query))));
  }

  /** Every line the case-sensitive search finds, the case-insensitive search
      finds too, and in the same order relative to the others. */
  lemma SearchWithinCaseInsensitive(query: string, contents: string)
    ensures IsSubseq(Search(query, contents), SearchCaseInsensitive(query, contents))
  {
    forall line | Contains(line, query) ensures Contains(Lower(line), Lower(query)) {
      ContainsLower(line, query);
    }
    FilterMonotone(Lines(contents),
                   line => Contains(line, query),
                   line => Contains(Lower(line), Lower(query)));
  }

  /** Lower-cased, "rUsT" is "rust", which occurs in the lower-cased forms of
      "Rust:" and "Trust me.". */
  lemma RustFound()
    ensures Lower("rUsT") == "rust"
    ensures Contains(Lower("Rust:"), "rust") && Contains(Lower("Trust me."), "rust")
  {
    assert Lower("rUsT") == "rust";
    assert Contains(Lower("Rust:"), "rust") by {
      assert Lower("Rust:") == "rust:";
      assert OccursAt("rust:", "rust", 0);
    }
    assert Lower("Trust me.") == "trust me.";
    assert OccursAt("trust me.", "rust", 1);
  }

  /** "rust" occurs in no other lower-cased test line. */
  lemma RustNotFound()
    ensures !Contains(Lower(""), "rust") && !Contains(Lower("Pick three."), "rust")
    ensures !Contains(Lower("safe, fast, productive."), "rust")
  {
    NotContainsMissingChar(Lower(""), "rust", 'r');
    assert Lower("Pick three.") == "pick three.";
    NotContainsMissingChar("pick three.", "rust", 'u');
    ProductiveLacksRust();
  }

  /** The only `r` of "safe, fast, productive." is followed by `o`, so "rust"
      does not occur in it, lower-cased or not. */
  lemma ProductiveLacksRust()
    ensures !Contains(Lower("safe, fast, productive."), "rust")
  {
    var s := "safe, fast, productive.";
    assert Lower(s) == s;
    forall i: nat | i + 4 <= |s| ensures !OccursAt(s, "rust", i) {
      if i == 13 {
        assert s[i..i + 4][1] == s[14];
      } else {
        assert s[i..i + 4][0] == s[i];
      }
    }
  }

  /** Filtering the lines of the case-insensitive test text by a predicate
      that accepts exactly "Rust:" and "Trust me." keeps those two. */
  lemma FilterTrustPoem(p: string -> bool)
    requires !p("") && !p("Pick three.") && !p("safe, fast, productive.")
    requires p("Rust:") && p("Trust me.")
    ensures Filter(["Rust:", "", "safe, fast, productive.", "", "Pick three.", "", "Trust me."], p) ==
            ["Rust:", "Trust me."]
  {
    var ls := ["Rust:", "", "safe, fast, productive.", "", "Pick three.", "", "Trust me."];
    assert Filter(ls[6..], p) == ["Trust me."];
    assert Filter(ls[5..], p) == ["Trust me."];
    assert Filter(ls[4..], p) == ["Trust me."];
    assert Filter(ls[3..], p) == ["Trust me."];
    assert Filter(ls[2..], p) == ["Trust me."];
    assert Filter(ls[1..], p) == ["Trust me."];
  }

  /** The case-insensitive test: "rUsT" finds "Rust:" and "Trust me.". */
  lemma SearchCaseInsensitiveExample()
    ensures SearchCaseInsensitive("rUsT", PoemWith("Trust me.")) == ["Rust:", "Trust me."]
  {
    PoemLines("Trust me.");
    var p := (line: string) => Contains(Lower(line), Lower("rUsT"));
    assert !p("") && !p("Pick three.") && !p("safe, fast, productive.") by {
      RustFound();
      RustNotFound();
    }
    assert p("Rust:") && p("Trust me.") by {
      RustFound();
    }
    FilterTrustPoem(p);
  }

  /** The choice `run` makes: the case-sensitive search when the configuration
      asks for it, the case-insensitive one otherwise. Whichever is chosen,
      the result is drawn, in order, from the lines of `contents`. */
  function Matches(config: Config, contents: string): (r: seq<string>)
    ensures config.caseSensitive ==> r == Search(config.query, contents)
    ensures !config.caseSensitive ==> r == SearchCaseInsensitive(config.query, contents)
    ensures IsSubseq(r, Lines(contents))
    ensures config.caseSensitive ==> forall line :: line in r ==> Contains(line, config.query)
    ensures !config.caseSensitive ==>
              forall line :: line in r ==> Contains(Lower(line), Lower(config.query))
    ensures forall line :: line in Lines(contents) && Contains(line, config.query) ==> line in r
  {
    if config.caseSensitive then Search(config.query, contents)
    else
      SearchWithinCaseInsensitive(config.query, contents);
      forall line | line in Lines(contents) && Contains(line, config.query)
        ensures line in SearchCaseInsensitive(config.query, contents)
      {
        ContainsLower(line, config.query);
      }
      SearchCaseInsensitive(config.query, contents)
  }

  /** From the command line to the matching lines: with the `i` flag the
      case-insensitive search runs whatever the environment holds. */
  lemma MatchesWithInsensitiveFlag(args: seq<string>, v: VarLookup, contents: string)
    requires |args| >= 4 && args[3] == InsensitiveFlag
    ensures NewConfig(args, v).Success?
    ensures Matches(NewConfig(args, v).value, contents) == SearchCaseInsensitive(args[1], contents)
  {
  }
}
