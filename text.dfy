/**
 The Python string operations the line reconstruction relies on: `str.strip()`,
 `sep.join(parts)`, `str.split(sep)` (used here only to state what the output
 means, line by line) and the accumulation `text += line + "\n"`.
 */
module Text {

  /** Python's `str.isspace()` for one character: the characters `str.strip()` removes. */
  predicate IsSpace(c: char): (b: bool)
    ensures c == ' ' || c == '\t' || c == '\n' || c == '\r' ==> b
    ensures b ==> !('0' <= c <= '9' || 'a' <= c <= 'z' || 'A' <= c <= 'Z')
  {
    || c == ' '
    || ('\t' <= c <= '\r')
    || ('\U{1C}' <= c <= '\U{1F}')
    || c == '\U{85}' || c == '\U{A0}' || c == '\U{1680}'
    || ('\U{2000}' <= c <= '\U{200A}')
    || c == '\U{2028}' || c == '\U{2029}' || c == '\U{202F}' || c == '\U{205F}'
    || c == '\U{3000}'
  }

  /** The end of the run of whitespace that starts at position `i` of `s`. */
  function SpaceRunFrom(s: string, i: int): (j: int)
    requires 0 <= i <= |s|
    ensures i <= j <= |s|
    ensures forall k :: i <= k < j ==> IsSpace(s[k])
    ensures j == |s| || !IsSpace(s[j])
    decreases |s| - i
  {
    if i == |s| || !IsSpace(s[i]) then i else SpaceRunFrom(s, i + 1)
  }

  /** The start of the run of whitespace that ends just before position `j` of `s`. */
  function SpaceRunBefore(s: string, j: int): (i: int)
    requires 0 <= j <= |s|
    ensures 0 <= i <= j
    ensures forall k :: i <= k < j ==> IsSpace(s[k])
    ensures i == 0 || !IsSpace(s[i - 1])
  {
    if j == 0 || !IsSpace(s[j - 1]) then j else SpaceRunBefore(s, j - 1)
  }

  /** `s` has no whitespace at either end: the strings `str.strip()` leaves as they are. */
  predicate Trimmed(s: string)
  {
    s == [] || (!IsSpace(s[0]) && !IsSpace(s[|s| - 1]))
  }

  /** `s.lstrip()`: the longest suffix of `s` that does not start with whitespace. */
  function StripLeading(s: string): (r: string)
    ensures |r| <= |s| && r == s[|s| - |r|..]
    ensures forall i :: 0 <= i < |s| - |r| ==> IsSpace(s[i])
    ensures r == [] || !IsSpace(r[0])
  {
    s[SpaceRunFrom(s, 0)..]
  }

  /** `s.rstrip()`: the longest prefix of `s` that does not end with whitespace. */
  function StripTrailing(s: string): (r: string)
    ensures |r| <= |s| && r == s[..|r|]
    ensures forall i :: |r| <= i < |s| ==> IsSpace(s[i])
    ensures r == [] || !IsSpace(r[|r| - 1])
  {
    s[..SpaceRunBefore(s, |s|)]
  }

  /** `s.strip()`: `s` without its leading and trailing whitespace. */
  function Strip(s: string): (r: string)
    ensures |r| <= |s|
    ensures Trimmed(r)
  {
    StripTrailing(StripLeading(s))
  }

  /** `Strip(s)` is a contiguous piece of `s`, starting where `StripLeading` starts. */
  lemma StripSlice(s: string)
    ensures var r, a := Strip(s), |s| - |StripLeading(s)|;
            a + |r| <= |s| && r == s[a..a + |r|]
  {
    TakeOfDrop(s, SpaceRunFrom(s, 0), |Strip(s)|);
  }

  /** A prefix of a suffix is a slice. */
  lemma TakeOfDrop<T>(s: seq<T>, a: int, n: int)
    requires 0 <= a <= |s| && 0 <= n <= |s| - a
    ensures s[a..][..n] == s[a..a + n]
  {
  }

  /** What `Strip(s)` cuts from either end of `s` is whitespace. */
  lemma StripCutsSpace(s: string)
    ensures forall i :: 0 <= i < |s| - |StripLeading(s)| ==> IsSpace(s[i])
    ensures forall i :: |s| - |StripLeading(s)| + |Strip(s)| <= i < |s| ==> IsSpace(s[i])
  {
    var t := StripLeading(s);
    forall i | |s| - |t| + |Strip(s)| <= i < |s| ensures IsSpace(s[i]) {
      assert s[i] == t[i - (|s| - |t|)];
    }
  }

  /** The strip is empty exactly when every character is whitespace. */
  lemma StripEmpty(s: string)
    ensures Strip(s) == [] <==> forall i :: 0 <= i < |s| ==> IsSpace(s[i])
  {
    StripSlice(s);
    StripCutsSpace(s);
    var t := StripLeading(s);
    assert t == [] || !IsSpace(t[0]);
  }

  /** A string with nothing to strip is its own strip. */
  lemma {:induction false} StripUnchanged(s: string)
    requires Trimmed(s)
    ensures Strip(s) == s
  {
    var a := SpaceRunFrom(s, 0);
    assert a == 0 by {
      if s != [] {
        assert !IsSpace(s[0]);
      }
    }
    assert StripLeading(s) == s;
    var e := SpaceRunBefore(s, |s|);
    assert e == |s| by {
      if s != [] {
        assert !IsSpace(s[|s| - 1]);
      }
    }
  }

  /** The prefix one element longer is the prefix followed by that element. */
  lemma TakeOneMore<T>(s: seq<T>, i: int)
    requires 0 <= i < |s|
    ensures s[..i + 1] == s[..i] + [s[i]]
  {
  }

  /** `[sep].join(parts)`, written `sep.join(parts)` in Python. */
  function Join(parts: seq<string>, sep: char): (r: string)
    ensures |parts| == 1 ==> r == parts[0]
    ensures parts == [] ==> r == []
  {
    if parts == [] then []
    else if |parts| == 1 then parts[0]
    else parts[0] + [sep] + Join(parts[1..], sep)
  }

  /** Joining never introduces a character other than the separator. */
  lemma {:induction false} JoinAvoids(parts: seq<string>, sep: char, c: char)
    requires c != sep
    requires forall p :: p in parts ==> c !in p
    ensures c !in Join(parts, sep)
  {
    if |parts| > 1 {
      JoinAvoids(parts[1..], sep, c);
    }
  }

  /** Index of the first occurrence of `x` in `s`, like `s.index(x)`. */
  function IndexOf<T(==)>(s: seq<T>, x: T): (i: nat)
    requires x in s
    ensures i < |s| && s[i] == x && x !in s[..i]
  {
    if s[0] == x then 0 else 1 + IndexOf(s[1..], x)
  }

  /** The first occurrence is the only index before which `x` does not occur. */
  lemma IndexOfUnique<T>(s: seq<T>, x: T, i: nat)
    requires i < |s| && s[i] == x && x !in s[..i]
    ensures IndexOf(s, x) == i
  {
  }

  /** `s.split(sep)`: the pieces between separators; always at least one piece. */
  function Split(s: string, sep: char): (parts: seq<string>)
    ensures |parts| >= 1
    ensures forall p :: p in parts ==> sep !in p
    decreases |s|
  {
    if sep !in s then [s]
    else
      var i := IndexOf(s, sep);
      [s[..i]] + Split(s[i + 1..], sep)
  }

  /** A string holding the separator splits into the piece before its first occurrence and the pieces after it. */
  lemma SplitStep(s: string, sep: char)
    requires sep in s
    ensures s == s[..IndexOf(s, sep)] + [sep] + s[IndexOf(s, sep) + 1..]
    ensures Split(s, sep) == [s[..IndexOf(s, sep)]] + Split(s[IndexOf(s, sep) + 1..], sep)
  {
    var i := IndexOf(s, sep);
    assert s == s[..i] + [s[i]] + s[i + 1..];
  }

  /** Joining a piece in front of at least one more piece puts one separator between them. */
  lemma JoinCons(head: string, rest: seq<string>, sep: char)
    requires rest != []
    ensures Join([head] + rest, sep) == head + [sep] + Join(rest, sep)
  {
    assert ([head] + rest)[1..] == rest;
  }

  /** Splitting and joining again gives back the string. */
  lemma {:induction false} JoinSplit(s: string, sep: char)
    ensures Join(Split(s, sep), sep) == s
    decreases |s|
  {
    if sep in s {
      var i := IndexOf(s, sep);
      SplitStep(s, sep);
      JoinSplit(s[i + 1..], sep);
      JoinCons(s[..i], Split(s[i + 1..], sep), sep);
    }
  }

  /** A piece free of the separator, a separator and the rest split into the piece followed by the pieces of the rest. */
  lemma SplitCons(head: string, sep: char, rest: string)
    requires sep !in head
    ensures Split(head + [sep] + rest, sep) == [head] + Split(rest, sep)
  {
    var s := head + [sep] + rest;
    assert s[..|head|] == head && s[|head| + 1..] == rest;
    IndexOfUnique(s, sep, |head|);
  }

  /** Joining pieces free of the separator and splitting again gives back the pieces. */
  lemma {:induction false} SplitJoin(parts: seq<string>, sep: char)
    requires |parts| >= 1
    requires forall p :: p in parts ==> sep !in p
    ensures Split(Join(parts, sep), sep) == parts
  {
    if |parts| > 1 {
      SplitCons(parts[0], sep, Join(parts[1..], sep));
      SplitJoin(parts[1..], sep);
      assert parts == [parts[0]] + parts[1..];
    }
  }

  /** Appending one more piece to a non-empty join adds one separator. */
  lemma {:induction false} JoinSnoc(parts: seq<string>, last: string, sep: char)
    requires |parts| >= 1
    ensures Join(parts + [last], sep) == Join(parts, sep) + [sep] + last
  {
    if |parts| == 1 {
      assert parts + [last] == [parts[0], last];
    } else {
      assert (parts + [last])[1..] == parts[1..] + [last];
      JoinSnoc(parts[1..], last, sep);
    }
  }

  /** The text accumulated by `text += line + "\n"` for every line, in order. */
  function Unlines(lines: seq<string>): (r: string)
    ensures lines == [] ==> r == []
    ensures |r| >= |lines|
    ensures lines != [] ==> r[|r| - 1] == '\n'
  {
    if lines == [] then []
    else Unlines(lines[..|lines| - 1]) + lines[|lines| - 1] + "\n"
  }

  /** One more line appends its text and one newline. */
  lemma UnlinesSnoc(lines: seq<string>, l: string)
    ensures Unlines(lines + [l]) == Unlines(lines) + l + "\n"
  {
    assert (lines + [l])[..|lines|] == lines;
  }

  /** Each line contributes its text and exactly one newline. */
  lemma {:induction false} UnlinesNewlines(lines: seq<string>)
    requires forall l :: l in lines ==> '\n' !in l
    ensures multiset(Unlines(lines))['\n'] == |lines|
  {
    if lines != [] {
      var init, last := lines[..|lines| - 1], lines[|lines| - 1];
      assert forall l :: l in init ==> l in lines;
      UnlinesNewlines(init);
      assert '\n' !in last;
      assert '\n' !in multiset(last);
      assert Unlines(lines) == Unlines(init) + last + "\n";
    }
  }

  /** The accumulated text is the newline-join of the lines plus one final newline. */
  lemma {:induction false} UnlinesIsJoin(lines: seq<string>)
    ensures Unlines(lines) == Join(lines + [""], '\n')
  {
    if lines != [] {
      var init, last := lines[..|lines| - 1], lines[|lines| - 1];
      assert lines == init + [last];
      if init == [] {
        assert lines + [""] == [last, ""];
      } else {
        UnlinesIsJoin(init);
        assert lines + [""] == (init + [last]) + [""];
        JoinSnoc(init, last, '\n');
        JoinSnoc(init + [last], "", '\n');
        JoinSnoc(init, "", '\n');
        assert Join(init + [""], '\n') == Join(init, '\n') + "\n";
      }
    }
  }

  /** Round trip: splitting the accumulated text on newlines recovers the lines, then one empty piece. */
  lemma UnlinesSplit(lines: seq<string>)
    requires forall l :: l in lines ==> '\n' !in l
    ensures Split(Unlines(lines), '\n') == lines + [""]
  {
    UnlinesIsJoin(lines);
    SplitJoin(lines + [""], '\n');
  }

  /** One line accumulated and stripped gives back the line, when it has nothing to strip itself. */
  lemma StripOneLine(l: string)
    requires l != [] && Trimmed(l)
    ensures Strip(Unlines([l])) == l
  {
    assert [l][..0] == [];
    var t := l + "\n";
    assert Unlines([l]) == t;
    assert t[0] == l[0] && t[|t| - 2] == l[|l| - 1] && IsSpace(t[|t| - 1]);
    assert SpaceRunFrom(t, 0) == 0;
    assert StripLeading(t) == t[0..] == t;
    assert SpaceRunBefore(t, |t| - 1) == |t| - 1;
    assert SpaceRunBefore(t, |t|) == |l|;
    assert StripTrailing(t) == t[..|l|] == l;
  }

  /** Stripping a string that starts with a piece with nothing to strip keeps that piece in front. */
  lemma StripKeepsPrefix(t: string, rest: string)
    requires t != [] && Trimmed(t)
    ensures |t| <= |Strip(t + rest)| && Strip(t + rest)[..|t|] == t
  {
    var s := t + rest;
    assert s[0] == t[0];
    assert SpaceRunFrom(s, 0) == 0;
    assert StripLeading(s) == s[0..] == s;
    var e := SpaceRunBefore(s, |s|);
    assert !IsSpace(s[|t| - 1]);
    assert |t| <= e;
    assert Strip(s) == s[..e];
    assert s[..e][..|t|] == s[..|t|] == t;
  }

  /** A piece with nothing to strip, written twice, still has nothing to strip. */
  lemma TrimmedTwice(t: string)
    requires t != [] && Trimmed(t)
    ensures Trimmed(t + t)
  {
    assert (t + t)[0] == t[0] && (t + t)[|t + t| - 1] == t[|t| - 1];
  }

  /** A piece followed by one accumulated line strips to the piece and the line, when together they have nothing to strip. */
  lemma StripPrefixedLine(t: string, l: string)
    requires t + l != [] && Trimmed(t + l)
    ensures Strip(t + Unlines([l])) == t + l
  {
    assert [] + [l] == [l] && [] + [t + l] == [t + l];
    UnlinesSnoc([], l);
    UnlinesSnoc([], t + l);
    assert t + Unlines([l]) == Unlines([t + l]);
    StripOneLine(t + l);
  }
}
