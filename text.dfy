/**
 * The few .NET string operations the gesture text is built with:
 * `String.Join`, `String.Split(char)`, `String.Trim()` and
 * `String.Contains(string)` (ordinal).
 */
module Text {

  /** The white-space characters `Trim` removes, restricted to ASCII. */
  predicate IsWhiteSpace(c: char) {
    c == ' ' || c == '\t' || c == '\n' || c == '\r' || c == '\U{000B}' || c == '\U{000C}'
  }

  /** `String.Join(sep, words)`. */
  function Join(words: seq<string>, sep: string): string {
    if words == [] then ""
    else if |words| == 1 then words[0]
    else words[0] + sep + Join(words[1..], sep)
  }

  /** `s.Split(c)`: the pieces between occurrences of `c`; at least one piece. */
  function Split(s: string, c: char): (pieces: seq<string>)
    ensures |pieces| >= 1
  {
    if s == [] then [""]
    else if s[0] == c then [""] + Split(s[1..], c)
    else
      var rest := Split(s[1..], c);
      [[s[0]] + rest[0]] + rest[1..]
  }

  /** `s.TrimStart()`. */
  function TrimStart(s: string): string {
    if s != [] && IsWhiteSpace(s[0]) then TrimStart(s[1..]) else s
  }

  /** `s.TrimEnd()`. */
  function TrimEnd(s: string): string {
    if s != [] && IsWhiteSpace(s[|s| - 1]) then TrimEnd(s[..|s| - 1]) else s
  }

  /** `s.Trim()`: without leading and trailing white space. */
  function Trim(s: string): string {
    TrimEnd(TrimStart(s))
  }

  /** `s.Contains(t)`, ordinal: `t` occurs in `s` as a contiguous piece. */
  function HasSubstring(s: string, t: string): (b: bool)
    decreases |s|
  {
    if |t| <= |s| && s[..|t|] == t then true
    else if s == [] then false
    else HasSubstring(s[1..], t)
  }

  /** `t` occurs in `s` starting at index `i`. */
  predicate OccursAt(s: string, t: string, i: int) {
    0 <= i && i + |t| <= |s| && s[i..i + |t|] == t
  }

  /** `HasSubstring` finds `t` exactly when it occurs at some index of `s`. */
  lemma {:induction false} HasSubstringIff(s: string, t: string)
    ensures HasSubstring(s, t) <==> exists i :: OccursAt(s, t, i)
  {
    if |t| <= |s| && s[..|t|] == t {
      assert OccursAt(s, t, 0);
    } else if s != [] {
      HasSubstringIff(s[1..], t);
      if exists i :: OccursAt(s, t, i) {
        var i :| OccursAt(s, t, i);
        assert i != 0;
        assert s[1..][i - 1..i - 1 + |t|] == s[i..i + |t|];
        assert OccursAt(s[1..], t, i - 1);
      }
      if HasSubstring(s[1..], t) {
        var i :| OccursAt(s[1..], t, i);
        assert s[1..][i..i + |t|] == s[i + 1..i + 1 + |t|];
        assert OccursAt(s, t, i + 1);
      }
    }
  }

  /** A string without the first character of `t` does not contain `t`. */
  lemma MissingFirstChar(s: string, t: string)
    requires t != []
    requires forall i :: 0 <= i < |s| ==> s[i] != t[0]
    ensures !HasSubstring(s, t)
  {
    HasSubstringIff(s, t);
    forall i | 0 <= i && i + |t| <= |s| ensures !OccursAt(s, t, i) {
      assert s[i..i + |t|][0] == s[i];
    }
  }

  /** A word with no comma and no white space in it, such as an enum member's name. */
  predicate IsPlainWord(w: string) {
    |w| > 0 && forall i :: 0 <= i < |w| ==> w[i] != ',' && !IsWhiteSpace(w[i])
  }

  lemma {:induction false} SplitNoSeparator(w: string, s: string, c: char)
    requires forall i :: 0 <= i < |w| ==> w[i] != c
    ensures Split(w + s, c) == [w + Split(s, c)[0]] + Split(s, c)[1..]
  {
    var pieces := Split(s, c);
    if w != [] {
      var x := w + s;
      assert x[0] == w[0] && x[0] != c;
      assert x[1..] == w[1..] + s;
      SplitNoSeparator(w[1..], s, c);
      var rest := Split(x[1..], c);
      assert rest == [w[1..] + pieces[0]] + pieces[1..];
      assert Split(x, c) == [[x[0]] + rest[0]] + rest[1..];
      assert [w[0]] + (w[1..] + pieces[0]) == w + pieces[0];
    } else {
      assert w + s == s;
      assert w + pieces[0] == pieces[0];
    }
  }

  lemma TrimPlainWord(w: string)
    requires IsPlainWord(w)
    ensures Trim(w) == w
  {
    assert TrimStart(w) == w;
  }

  lemma TrimLeadingSpace(s: string)
    ensures Trim(" " + s) == Trim(s)
  {
    assert (" " + s)[1..] == s;
  }

  lemma JoinCons(words: seq<string>)
    requires |words| >= 2
    ensures Join(words, ", ") == words[0] + ("," + (" " + Join(words[1..], ", ")))
  {
    assert words[0] + ", " + Join(words[1..], ", ") == words[0] + ("," + (" " + Join(words[1..], ", ")));
  }

  /** The pieces of a word, ", " and more text, split at ','. */
  lemma SplitAfterWord(w: string, rest: string)
    requires forall i :: 0 <= i < |w| ==> w[i] != ','
    ensures Split(w + ("," + (" " + rest)), ',')
      == [w] + ([" " + Split(rest, ',')[0]] + Split(rest, ',')[1..])
  {
    var tail := "," + (" " + rest);
    SplitNoSeparator(w, tail, ',');
    assert tail[1..] == " " + rest;
    assert Split(tail, ',') == [""] + Split(" " + rest, ',');
    SplitNoSeparator(" ", rest, ',');
    assert w + "" == w;
  }

  /**
   * Splitting words joined by ", " at ',' and trimming each piece gives the
   * words back, one piece per word.
   */
  lemma {:induction false} SplitJoinRoundTrip(words: seq<string>)
    requires words != []
    requires forall i :: 0 <= i < |words| ==> IsPlainWord(words[i])
    ensures |Split(Join(words, ", "), ',')| == |words|
    ensures forall i :: 0 <= i < |words| ==> Trim(Split(Join(words, ", "), ',')[i]) == words[i]
  {
    var w := words[0];
    TrimPlainWord(w);
    if |words| == 1 {
      SplitNoSeparator(w, "", ',');
      assert w + "" == w;
    } else {
      var rest := words[1..];
      SplitJoinRoundTrip(rest);
      var tail := Split(Join(rest, ", "), ',');
      JoinCons(words);
      SplitAfterWord(w, Join(rest, ", "));
      var pieces := Split(Join(words, ", "), ',');
      assert pieces == [w] + ([" " + tail[0]] + tail[1..]);
      TrimLeadingSpace(tail[0]);
      forall i | 1 < i < |words| ensures Trim(pieces[i]) == words[i] {
        assert pieces[i] == tail[i - 1] && words[i] == rest[i - 1];
      }
    }
  }
}
