/** The string primitives the search routines lean on: substring containment
    (`str::contains`), lower-casing (`str::to_lowercase`, restricted to ASCII)
    and splitting into lines (`str::lines`). */
module Text {
  import opened Wrappers

  /* ----- Substring containment ----- */

  /** `q` occurs in `s` starting at position `i`. */
  predicate OccursAt(s: string, q: string, i: nat) {
    i + |q| <= |s| && s[i..i + |q|] == q
  }

  /** `q` is a substring of `s`; the empty string is a substring of every string. */
  predicate Contains(s: string, q: string) {
    exists i: nat :: i + |q| <= |s| && OccursAt(s, q, i)
  }

  /** A scan for the first occurrence of `q` in `s`, one candidate position at
      a time; it answers the containment question that `str::contains` asks. */
  method Find(s: string, q: string) returns (r: Option<nat>)
    ensures r.Some? <==> Contains(s, q)
    ensures r.Some? ==> OccursAt(s, q, r.value)
    ensures r.Some? ==> forall j: nat :: j < r.value ==> !OccursAt(s, q, j)
  {
    if |q| > |s| {
      return None;
    }
    var i := 0;
    while i + |q| <= |s|
      invariant i <= |s| - |q| + 1
      invariant forall j: nat :: j < i ==> !OccursAt(s, q, j)
    {
      if s[i..i + |q|] == q {
        assert OccursAt(s, q, i);
        return Some(i);
      }
      i := i + 1;
    }
    return None;
  }

  /** The empty query occurs everywhere. */
  lemma ContainsEmpty(s: string)
    ensures Contains(s, "")
  {
    assert OccursAt(s, "", 0);
  }

  /** A query holding a character the string lacks does not occur in it. */
  lemma NotContainsMissingChar(s: string, q: string, c: char)
    requires c in q && c !in s
    ensures !Contains(s, q)
  {
  }

  /* ----- Lower-casing ----- */

  /** ASCII lower-casing of one character: `A`..`Z` become `a`..`z`, every
      other character is left alone. */
  function LowerChar(c: char): char {
    if 'A' <= c <= 'Z' then (c as int - 'A' as int + 'a' as int) as char else c
  }

  /** Lower-cases a string character by character; the length is kept. */
  function Lower(s: string): string {
    seq(|s|, i requires 0 <= i < |s| => LowerChar(s[i]))
  }

  /** Lower-casing twice is lower-casing once. */
  lemma LowerIdempotent(s: string)
    ensures Lower(Lower(s)) == Lower(s)
  {
  }

  /** Lower-casing commutes with taking a slice. */
  lemma LowerSlice(s: string, i: nat, j: nat)
    requires i <= j <= |s|
    ensures Lower(s[i..j]) == Lower(s)[i..j]
  {
  }

  /** An occurrence survives lower-casing of both sides. */
  lemma ContainsLower(s: string, q: string)
    requires Contains(s, q)
    ensures Contains(Lower(s), Lower(q))
  {
    var i: nat :| i + |q| <= |s| && OccursAt(s, q, i);
    LowerSlice(s, i, i + |q|);
    assert OccursAt(Lower(s), Lower(q), i);
  }

  /* ----- Line splitting ----- */

  /** The position of the first `c` in `s`, or `|s|` when there is none. */
  function IndexOf(s: string, c: char): (i: nat)
    ensures i <= |s|
    ensures i < |s| ==> s[i] == c
    ensures forall j :: 0 <= j < i ==> s[j] != c
    decreases |s|
  {
    if |s| == 0 then 0
    else if s[0] == c then 0
    else 1 + IndexOf(s[1..], c)
  }

  /** `s` ends in a carriage return. */
  predicate EndsWithCr(s: string) {
    |s| > 0 && s[|s| - 1] == '\r'
  }

  /** Drops one carriage return before a line feed, so that `\r\n` ends a
      line just as `\n` does. */
  function StripCr(s: string): string {
    if EndsWithCr(s) then s[..|s| - 1] else s
  }

  /** The lines of `s` as `str::lines` yields them: the text between line
      feeds, each without its line ending (`\n` or `\r\n`); the last line
      needs no ending, and an ending after it starts no further, empty line.
      A lone `\r` that no `\n` follows stays part of the line. */
  function Lines(s: string): (r: seq<string>)
    ensures |r| == 0 <==> |s| == 0
    ensures forall line :: line in r ==> '\n' !in line
    decreases |s|
  {
    if |s| == 0 then []
    else
      var i := IndexOf(s, '\n');
      if i == |s| then [s]
      else
        var line := StripCr(s[..i]);
        assert forall j :: 0 <= j < |line| ==> line[j] == s[j];
        [line] + Lines(s[i + 1..])
  }

  /** Lines ended by line feeds, concatenated: the text a file holding `ls`
      one per line would contain. */
  function JoinTerminated(ls: seq<string>): string {
    if |ls| == 0 then "" else ls[0] + "\n" + JoinTerminated(ls[1..])
  }

  /** A string that is a single line. */
  predicate IsLine(line: string) {
    '\n' !in line && !EndsWithCr(line)
  }

  /** Splitting `line + "\n" + rest` yields `line` first, then the lines of `rest`. */
  lemma LinesCons(line: string, rest: string)
    requires '\n' !in line
    ensures Lines(line + "\n" + rest) == [StripCr(line)] + Lines(rest)
  {
    var s := line + "\n" + rest;
    var i := IndexOf(s, '\n');
    assert s[|line|] == '\n';
    assert i == |line|;
    assert s[..i] == line;
    assert s[i + 1..] == rest;
  }

  /** A non-empty string without line feeds is one line. */
  lemma LinesSingle(line: string)
    requires line != "" && '\n' !in line
    ensures Lines(line) == [line]
  {
  }

  /** Splitting undoes joining: lines written one per line, each ended by a
      line feed, are read back unchanged. */
  lemma {:induction false} LinesOfJoined(ls: seq<string>)
    requires forall line :: line in ls ==> IsLine(line)
    ensures Lines(JoinTerminated(ls)) == ls
  {
    if |ls| > 0 {
      assert ls[0] in ls;
      LinesCons(ls[0], JoinTerminated(ls[1..]));
      LinesOfJoined(ls[1..]);
    }
  }

  /** Terminated lines followed by one unterminated, non-empty last line are
      read back as those lines and then the last one. */
  lemma {:induction false} LinesOfJoinedThenLast(ls: seq<string>, last: string)
    requires forall line :: line in ls ==> IsLine(line)
    requires last != "" && '\n' !in last
    ensures Lines(JoinTerminated(ls) + last) == ls + [last]
  {
    if |ls| == 0 {
      assert JoinTerminated(ls) + last == last;
      LinesSingle(last);
    } else {
      assert ls[0] in ls;
      assert JoinTerminated(ls) + last == ls[0] + "\n" + (JoinTerminated(ls[1..]) + last);
      LinesCons(ls[0], JoinTerminated(ls[1..]) + last);
      LinesOfJoinedThenLast(ls[1..], last);
      assert ls == [ls[0]] + ls[1..];
    }
  }

  /** A final `\r\n` adds no line either: text that ends in neither a line
      feed nor a carriage return has the same lines with `\r\n` appended. */
  lemma {:induction false} LinesFinalCrLf(s: string)
    requires s != "" && s[|s| - 1] != '\n' && s[|s| - 1] != '\r'
    ensures Lines(s + "\r\n") == Lines(s)
    decreases |s|
  {
    var i := IndexOf(s, '\n');
    if i == |s| {
      LinesSingleCrLf(s);
      LinesSingle(s);
    } else {
      var line, rest := s[..i], s[i + 1..];
      assert '\n' !in line;
      assert i < |s| - 1;
      assert rest != "" && rest[|rest| - 1] == s[|s| - 1];
      assert Lines(s) == [StripCr(line)] + Lines(rest) by {
        assert s == line + "\n" + rest;
        LinesCons(line, rest);
      }
      assert Lines(s + "\r\n") == [StripCr(line)] + Lines(rest + "\r\n") by {
        assert s + "\r\n" == line + "\n" + (rest + "\r\n");
        LinesCons(line, rest + "\r\n");
      }
      LinesFinalCrLf(rest);
    }
  }

  /** One line followed by `\r\n` is that line alone. */
  lemma LinesSingleCrLf(s: string)
    requires '\n' !in s && !EndsWithCr(s)
    ensures Lines(s + "\r\n") == [s]
  {
    var t := s + "\r";
    assert '\n' !in t;
    assert StripCr(t) == s;
    assert s + "\r\n" == t + "\n" + "";
    LinesCons(t, "");
  }

  /** A final line feed adds no line: text that ends in neither a line feed
      nor a carriage return has the same lines with a line feed appended. */
  lemma {:induction false} LinesFinalNewline(s: string)
    requires s != "" && s[|s| - 1] != '\n' && s[|s| - 1] != '\r'
    ensures Lines(s + "\n") == Lines(s)
    decreases |s|
  {
    var i := IndexOf(s, '\n');
    if i == |s| {
      assert '\n' !in s;
      assert Lines(s + "\n") == [s] by {
        assert s + "\n" == s + "\n" + "";
        LinesCons(s, "");
      }
      LinesSingle(s);
    } else {
      var line, rest := s[..i], s[i + 1..];
      assert '\n' !in line;
      assert i < |s| - 1;
      assert rest != "" && rest[|rest| - 1] == s[|s| - 1];
      assert Lines(s) == [StripCr(line)] + Lines(rest) by {
        assert s == line + "\n" + rest;
        LinesCons(line, rest);
      }
      assert Lines(s + "\n") == [StripCr(line)] + Lines(rest + "\n") by {
        assert s + "\n" == line + "\n" + (rest + "\n");
        LinesCons(line, rest + "\n");
      }
      LinesFinalNewline(rest);
    }
  }
}
