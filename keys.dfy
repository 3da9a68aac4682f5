/** The key-list parser behind `Env.keys`: the text printed by the `env`
    command is split into lines, each line is cut at its first '=', and
    empty names are dropped. Also the listing format that `env` prints, so
    that the parser can be related to the table it was printed from. */
module EnvKeys {

  /** Splitting on a single separator character, as Foundation's
      `componentsSeparatedByString` does: n separators give n + 1
      components, and the empty string gives one empty component. */
  function Split(s: string, sep: char): (r: seq<string>)
    ensures |r| >= 1
    decreases |s|
  {
    if |s| == 0 then [""]
    else
      var rest := Split(s[1..], sep);
      if s[0] == sep then [""] + rest
      else [[s[0]] + rest[0]] + rest[1..]
  }

  /** How many times `c` occurs in `s`. */
  function Occurrences(s: string, c: char): (n: nat)
    decreases |s|
  {
    if |s| == 0 then 0
    else (if s[0] == c then 1 else 0) + Occurrences(s[1..], c)
  }

  /** n separators give n + 1 components. */
  lemma {:induction false} SplitCount(s: string, sep: char)
    ensures |Split(s, sep)| == 1 + Occurrences(s, sep)
    decreases |s|
  {
    if |s| > 0 {
      SplitCount(s[1..], sep);
    }
  }

  /** The inverse of Split: the parts glued back together with `sep`. */
  function Join(parts: seq<string>, sep: char): (joined: string)
    decreases |parts|
  {
    if |parts| == 0 then ""
    else if |parts| == 1 then parts[0]
    else parts[0] + [sep] + Join(parts[1..], sep)
  }

  /** No component of a split contains the separator. */
  lemma {:induction false} SplitPartsExcludeSep(s: string, sep: char)
    ensures forall i :: 0 <= i < |Split(s, sep)| ==> sep !in Split(s, sep)[i]
    decreases |s|
  {
    if |s| > 0 {
      SplitPartsExcludeSep(s[1..], sep);
      var rest := Split(s[1..], sep);
      if s[0] != sep {
        var r := Split(s, sep);
        assert r[0] == [s[0]] + rest[0];
        forall i | 1 <= i < |r| ensures sep !in r[i] {
          assert r[i] == rest[i];
        }
      }
    }
  }

  /** Every component of a split is a piece of the input: joining the
      components back with the separator gives the input again. */
  lemma {:induction false} JoinSplit(s: string, sep: char)
    ensures Join(Split(s, sep), sep) == s
    decreases |s|
  {
    if |s| > 0 {
      JoinSplit(s[1..], sep);
      var rest := Split(s[1..], sep);
      if s[0] == sep {
        assert Split(s, sep) == [""] + rest;
        assert ([""] + rest)[1..] == rest;
        assert s == [sep] + s[1..];
      } else {
        var r := Split(s, sep);
        assert r == [[s[0]] + rest[0]] + rest[1..];
        if |rest| == 1 {
          assert s == [s[0]] + s[1..];
        } else {
          assert r[1..] == rest[1..];
          assert Join(rest, sep) == rest[0] + [sep] + Join(rest[1..], sep);
          assert s == [s[0]] + s[1..];
        }
      }
    }
  }

  /** Splitting a string that has no separator yields the string itself. */
  lemma {:induction false} SplitWithoutSep(s: string, sep: char)
    requires sep !in s
    ensures Split(s, sep) == [s]
    decreases |s|
  {
    if |s| > 0 {
      assert s == [s[0]] + s[1..];
      SplitWithoutSep(s[1..], sep);
    }
  }

  /** One step of Split, for a string given as its first character and
      the rest. */
  lemma SplitCons(c: char, t: string, sep: char)
    ensures Split([c] + t, sep) ==
      if c == sep then [""] + Split(t, sep)
      else [[c] + Split(t, sep)[0]] + Split(t, sep)[1..]
  {
  }

  /** Splitting distributes over a separator: the components of `a`
      followed by the components of `b`, in that order. */
  lemma {:induction false} SplitAtSep(a: string, b: string, sep: char)
    ensures Split(a + [sep] + b, sep) == Split(a, sep) + Split(b, sep)
    decreases |a|
  {
    if |a| == 0 {
      assert a + [sep] + b == [sep] + b;
      SplitCons(sep, b, sep);
    } else {
      var c, t := a[0], a[1..];
      SplitAtSep(t, b, sep);
      SplitAtSepStep(c, t, b, sep);
      assert a == [c] + t;
      assert a + [sep] + b == [c] + (t + [sep] + b);
    }
  }

  /** The inductive step of SplitAtSep: one more character in front. */
  lemma SplitAtSepStep(c: char, t: string, b: string, sep: char)
    requires Split(t + [sep] + b, sep) == Split(t, sep) + Split(b, sep)
    ensures Split([c] + (t + [sep] + b), sep) == Split([c] + t, sep) + Split(b, sep)
  {
    SplitCons(c, t + [sep] + b, sep);
    SplitCons(c, t, sep);
    var ra, rb := Split(t, sep), Split(b, sep);
    if c != sep {
      assert (ra + rb)[0] == ra[0];
      assert (ra + rb)[1..] == ra[1..] + rb;
    }
  }

  /** Reference description of a line's name: the prefix of the line up to,
      not including, its first '='; the whole line when it has no '='. */
  ghost predicate IsNameOf(line: string, k: string)
  {
    k <= line && '=' !in k && (|k| == |line| || line[|k|] == '=')
  }

  /** The first component of a line split at '=' is the reference name, and
      no other string satisfies the reference description. */
  lemma {:induction false} FirstComponentIsName(line: string)
    ensures IsNameOf(line, Split(line, '=')[0])
    ensures forall k :: IsNameOf(line, k) ==> k == Split(line, '=')[0]
    decreases |line|
  {
    SplitPartsExcludeSep(line, '=');
    if |line| > 0 {
      FirstComponentIsName(line[1..]);
      var rest := Split(line[1..], '=');
      if line[0] != '=' {
        assert Split(line, '=')[0] == [line[0]] + rest[0];
        forall k | IsNameOf(line, k) ensures k == Split(line, '=')[0] {
          assert |k| > 0;
          assert k[0] == line[0];
          assert IsNameOf(line[1..], k[1..]);
          assert k == [k[0]] + k[1..];
        }
      } else {
        forall k | IsNameOf(line, k) ensures k == Split(line, '=')[0] {
          assert k == line[..|k|];
        }
      }
    }
  }

  /** The name part of one line of `env` output: the first component of the
      line split at '=' (the force-unwrapped `.first!` cannot fail, because a
      split always has a first component). It is exactly the line's prefix
      before its first '=', or the whole line when it has none. */
  function KeyOf(line: string): (k: string)
    ensures IsNameOf(line, k)
    ensures forall n :: IsNameOf(line, n) ==> n == k
  {
    FirstComponentIsName(line);
    Split(line, '=')[0]
  }

  /** A `name=value` line whose name has no '=' yields that name, whatever
      the value holds (including further '=' signs). */
  lemma KeyOfEntry(name: string, value: string)
    requires '=' !in name
    ensures KeyOf(name + "=" + value) == name
  {
    var line := name + "=" + value;
    assert line[|name|] == '=';
    assert name <= line;
    assert IsNameOf(line, name);
  }

  /** The `filter { !$0.isEmpty }` step: the non-empty elements, in order. */
  function DropEmpty(xs: seq<string>): (r: seq<string>)
    ensures |r| <= |xs|
    ensures forall i :: 0 <= i < |r| ==> r[i] != "" && r[i] in xs
    ensures forall x :: x in xs && x != "" ==> x in r
    decreases |xs|
  {
    if |xs| == 0 then []
    else if xs[0] == "" then DropEmpty(xs[1..])
    else [xs[0]] + DropEmpty(xs[1..])
  }

  lemma {:induction false} DropEmptyAppend(xs: seq<string>, ys: seq<string>)
    ensures DropEmpty(xs + ys) == DropEmpty(xs) + DropEmpty(ys)
    decreases |xs|
  {
    if |xs| > 0 {
      assert (xs + ys)[0] == xs[0];
      assert (xs + ys)[1..] == xs[1..] + ys;
      DropEmptyAppend(xs[1..], ys);
      if xs[0] == "" {
        assert DropEmpty(xs + ys) == DropEmpty(xs[1..] + ys);
        assert DropEmpty(xs) == DropEmpty(xs[1..]);
      } else {
        assert DropEmpty(xs + ys) == [xs[0]] + DropEmpty(xs[1..] + ys);
        assert DropEmpty(xs) == [xs[0]] + DropEmpty(xs[1..]);
        assert [xs[0]] + (DropEmpty(xs[1..]) + DropEmpty(ys)) == ([xs[0]] + DropEmpty(xs[1..])) + DropEmpty(ys);
      }
    } else {
      assert xs + ys == ys;
    }
  }

  /** The `map { $0.componentsSeparatedByString("=").first! }` step. */
  function Heads(lines: seq<string>): (r: seq<string>)
    ensures |r| == |lines|
    ensures forall i :: 0 <= i < |lines| ==> r[i] == KeyOf(lines[i])
    decreases |lines|
  {
    if |lines| == 0 then [] else [KeyOf(lines[0])] + Heads(lines[1..])
  }

  lemma HeadsAppend(xs: seq<string>, ys: seq<string>)
    ensures Heads(xs + ys) == Heads(xs) + Heads(ys)
  {
  }

  /** Names cut from lines without newlines contain neither '=' nor a
      newline. */
  lemma HeadsWellFormed(lines: seq<string>)
    requires forall i :: 0 <= i < |lines| ==> '\n' !in lines[i]
    ensures forall i :: 0 <= i < |lines| ==> '=' !in Heads(lines)[i] && '\n' !in Heads(lines)[i]
  {
    forall i | 0 <= i < |lines| ensures '\n' !in Heads(lines)[i] {
      var k := Heads(lines)[i];
      assert k == lines[i][..|k|];
    }
  }

  /** `Env.keys`: the names found in the output of `env`, in line order.
      Every name is non-empty and contains neither '=' nor a newline. */
  function ParseKeys(output: string): (keys: seq<string>)
    ensures forall i :: 0 <= i < |keys| ==> keys[i] != "" && '=' !in keys[i] && '\n' !in keys[i]
  {
    var lines := Split(output, '\n');
    SplitPartsExcludeSep(output, '\n');
    HeadsWellFormed(lines);
    DropEmpty(Heads(lines))
  }

  /** A single line (text with no newline) contributes its name, unless the
      name is empty; a line with no '=' contributes the whole line. */
  lemma ParseKeysOfLine(line: string)
    requires '\n' !in line
    ensures ParseKeys(line) == if KeyOf(line) == "" then [] else [KeyOf(line)]
    ensures '=' !in line ==> ParseKeys(line) == if line == "" then [] else [line]
  {
    SplitWithoutSep(line, '\n');
    assert Heads([line]) == [KeyOf(line)];
    if '=' !in line {
      SplitWithoutSep(line, '=');
    }
  }

  /** Parsing follows line order: the names of the text before a newline
      come first, then those of the text after it. */
  lemma ParseKeysAtNewline(a: string, b: string)
    ensures ParseKeys(a + "\n" + b) == ParseKeys(a) + ParseKeys(b)
  {
    SplitAtSep(a, b, '\n');
    HeadsAppend(Split(a, '\n'), Split(b, '\n'));
    DropEmptyAppend(Heads(Split(a, '\n')), Heads(Split(b, '\n')));
  }

  /** A trailing newline, which `env` always prints, adds no name. */
  lemma ParseKeysTrailingNewline(s: string)
    ensures ParseKeys(s + "\n") == ParseKeys(s)
  {
    ParseKeysAtNewline(s, "");
    assert s + "\n" + "" == s + "\n";
    ParseKeysOfLine("");
  }

  /** One `name=value` line as `env` prints it. */
  function EntryLine(entry: (string, string)): (line: string)
  {
    entry.0 + "=" + entry.1
  }

  /** The text `env` prints for a list of entries: one line per entry, each
      ended by a newline. */
  function Listing(entries: seq<(string, string)>): (text: string)
    decreases |entries|
  {
    if |entries| == 0 then "" else EntryLine(entries[0]) + "\n" + Listing(entries[1..])
  }

  /** The names of a list of entries, in order. */
  function ListedNames(entries: seq<(string, string)>): (r: seq<string>)
    ensures |r| == |entries|
    ensures forall i :: 0 <= i < |entries| ==> r[i] == entries[i].0
    decreases |entries|
  {
    if |entries| == 0 then [] else [entries[0].0] + ListedNames(entries[1..])
  }

  /** The values of a list of entries, in order. */
  function ListedValues(entries: seq<(string, string)>): (r: seq<string>)
    ensures |r| == |entries|
    ensures forall i :: 0 <= i < |entries| ==> r[i] == entries[i].1
    decreases |entries|
  {
    if |entries| == 0 then [] else [entries[0].1] + ListedValues(entries[1..])
  }

  /** Entries that `env` prints unambiguously: a non-empty name without '='
      or newline, and a value without newline. */
  predicate Printable(entry: (string, string))
  {
    entry.0 != "" && '=' !in entry.0 && '\n' !in entry.0 && '\n' !in entry.1
  }

  /** Round trip: parsing the listing of printable entries gives back their
      names, in the order they were printed. */
  lemma {:induction false} ParseKeysOfListing(entries: seq<(string, string)>)
    requires forall i :: 0 <= i < |entries| ==> Printable(entries[i])
    ensures ParseKeys(Listing(entries)) == ListedNames(entries)
    decreases |entries|
  {
    if |entries| == 0 {
      ParseKeysOfLine("");
    } else {
      var e := entries[0];
      var line := EntryLine(e);
      assert Printable(e);
      assert line == e.0 + "=" + e.1;
      ParseKeysAtNewline(line, Listing(entries[1..]));
      ParseKeysOfLine(line);
      KeyOfEntry(e.0, e.1);
      ParseKeysOfListing(entries[1..]);
      assert ListedNames(entries) == [e.0] + ListedNames(entries[1..]);
    }
  }

  /** The parser cannot tell a newline inside a value from the end of an
      entry: a value holding "\nB=c" lists the same text as two entries, so
      `B` appears as a name although only `FOO` was set. */
  lemma NewlineInValueAddsName()
    ensures ParseKeys(Listing([("FOO", "a\nB=c")])) == ["FOO", "B"]
  {
    var twoEntries := [("FOO", "a"), ("B", "c")];
    assert Listing([("FOO", "a\nB=c")]) == "FOO=a\nB=c\n" == Listing(twoEntries);
    assert Printable(twoEntries[0]) && Printable(twoEntries[1]);
    ParseKeysOfListing(twoEntries);
  }

  /** The example of a two-variable environment: "A=1\nB=2\n" gives exactly
      ["A", "B"]; the empty final line is dropped. */
  lemma TwoEntryExample()
    ensures ParseKeys("A=1\nB=2\n") == ["A", "B"]
  {
    var entries := [("A", "1"), ("B", "2")];
    assert Listing(entries) == "A=1\nB=2\n";
    assert Printable(entries[0]) && Printable(entries[1]);
    ParseKeysOfListing(entries);
  }

  /** A non-empty line with no '=' is not skipped: its whole text is taken
      as a name, ahead of the names in the text that follows it. */
  lemma LineWithoutEqualsIsKept(line: string, rest: string)
    requires line != "" && '=' !in line && '\n' !in line
    ensures ParseKeys(line + "\n" + rest) == [line] + ParseKeys(rest)
  {
    ParseKeysAtNewline(line, rest);
    ParseKeysOfLine(line);
  }
}
