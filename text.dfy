/**
 * The string operations of Python's `str` that the pipeline relies on,
 * restricted to ASCII: whitespace, digits and letter case are the ASCII
 * ones (Python's Unicode tables are not modelled).
 */
module Text {

  function Min(a: int, b: int): int { if a <= b then a else b }

  /** `str.isspace()` on an ASCII character: space, `\t`..`\r` and `\x1c`..`\x1f`. */
  predicate IsSpace(c: char) {
    c == ' ' || ('\t' <= c <= '\r') || ('\U{1C}' <= c <= '\U{1F}')
  }

  predicate IsDigit(c: char) { '0' <= c <= '9' }

  predicate IsUpper(c: char) { 'A' <= c <= 'Z' }

  predicate IsLower(c: char) { 'a' <= c <= 'z' }

  /** `str.isnumeric()` (and `re.match(r'^\d+$')`) on ASCII text: non-empty and digits only. */
  predicate AllDigits(s: string) {
    |s| > 0 && forall i :: 0 <= i < |s| ==> IsDigit(s[i])
  }

  predicate StartsWith(s: string, prefix: string) {
    |prefix| <= |s| && s[..|prefix|] == prefix
  }

  function LowerChar(c: char): char {
    if IsUpper(c) then (c as int - 'A' as int + 'a' as int) as char else c
  }

  function UpperChar(c: char): char {
    if IsLower(c) then (c as int - 'a' as int + 'A' as int) as char else c
  }

  /** `str.lower()` */
  function Lower(s: string): string {
    seq(|s|, i requires 0 <= i < |s| => LowerChar(s[i]))
  }

  /** `str.capitalize()`: first character upper case, the rest lower case. */
  function Capitalize(w: string): string {
    if w == [] then [] else [UpperChar(w[0])] + Lower(w[1..])
  }

  /** `s.replace(from, to)` for single characters. */
  function ReplaceChar(s: string, from: char, to: char): string {
    seq(|s|, i requires 0 <= i < |s| => if s[i] == from then to else s[i])
  }

  /** `s.replace(pat, '')`: deletes the non-overlapping occurrences of `pat`, scanning left to right. */
  function RemoveAll(s: string, pat: string): (r: string)
    requires pat != []
    decreases |s|
  {
    if |s| < |pat| then s
    else if s[..|pat|] == pat then RemoveAll(s[|pat|..], pat)
    else [s[0]] + RemoveAll(s[1..], pat)
  }

  /** The number of whitespace characters at the start of `s`. */
  function LeadingSpaces(s: string): (n: nat)
    ensures n <= |s|
  {
    if s != [] && IsSpace(s[0]) then 1 + LeadingSpaces(s[1..]) else 0
  }

  /** The number of whitespace characters at the end of `s`. */
  function TrailingSpaces(s: string): (n: nat)
    ensures n <= |s|
  {
    if s != [] && IsSpace(s[|s| - 1]) then 1 + TrailingSpaces(s[..|s| - 1]) else 0
  }

  lemma {:induction false} LeadingSpacesSpec(s: string)
    ensures forall k :: 0 <= k < LeadingSpaces(s) ==> IsSpace(s[k])
    ensures LeadingSpaces(s) < |s| ==> !IsSpace(s[LeadingSpaces(s)])
  {
    if s != [] && IsSpace(s[0]) {
      LeadingSpacesSpec(s[1..]);
    }
  }

  lemma {:induction false} TrailingSpacesSpec(s: string)
    ensures forall k :: |s| - TrailingSpaces(s) <= k < |s| ==> IsSpace(s[k])
    ensures TrailingSpaces(s) < |s| ==> !IsSpace(s[|s| - 1 - TrailingSpaces(s)])
  {
    if s != [] && IsSpace(s[|s| - 1]) {
      TrailingSpacesSpec(s[..|s| - 1]);
    }
  }

  /** `str.strip()`: the text between the leading and the trailing whitespace. */
  function Strip(s: string): string {
    var t := s[LeadingSpaces(s)..];
    t[..|t| - TrailingSpaces(t)]
  }

  /** `Strip(s)` is the slice of `s` after its leading whitespace, trailing whitespace cut off. */
  lemma StripSlice(s: string)
    ensures var i, t := LeadingSpaces(s), s[LeadingSpaces(s)..];
      var n := |t| - TrailingSpaces(t);
      i + n <= |s| && Strip(s) == t[..n] && Strip(s) == s[i..i + n]
  {
  }

  /** What `Strip(s)` cuts off at either end is whitespace. */
  lemma StripCutsSpaces(s: string)
    ensures var i, t := LeadingSpaces(s), s[LeadingSpaces(s)..];
      (forall k :: 0 <= k < i ==> IsSpace(s[k])) &&
      (forall k :: i + |t| - TrailingSpaces(t) <= k < |s| ==> IsSpace(s[k]))
  {
    var i := LeadingSpaces(s);
    var t := s[i..];
    LeadingSpacesSpec(s);
    TrailingSpacesSpec(t);
    forall k | i + |t| - TrailingSpaces(t) <= k < |s| ensures IsSpace(s[k]) {
      assert s[k] == t[k - i];
    }
  }

  /** `Strip(s)` neither starts nor ends with whitespace. */
  lemma StripTrimmed(s: string)
    ensures var r := Strip(s);
      r == [] || (!IsSpace(r[0]) && !IsSpace(r[|r| - 1]))
  {
    var i := LeadingSpaces(s);
    var t := s[i..];
    var n := |t| - TrailingSpaces(t);
    StripSlice(s);
    if n > 0 {
      LeadingSpacesSpec(s);
      TrailingSpacesSpec(t);
      assert Strip(s)[0] == t[0] == s[i];
      assert Strip(s)[n - 1] == t[n - 1];
    }
  }

  /**
   * Stripping removes whitespace only, and only from the ends: the result is
   * the slice of `s` after its leading and before its trailing whitespace, and
   * it neither starts nor ends with whitespace.
   */
  lemma StripSpec(s: string)
    ensures var r := Strip(s);
      var i := LeadingSpaces(s);
      i + |r| <= |s| && r == s[i..i + |r|] &&
      (forall k :: 0 <= k < i ==> IsSpace(s[k])) &&
      (forall k :: i + |r| <= k < |s| ==> IsSpace(s[k])) &&
      (r == [] || (!IsSpace(r[0]) && !IsSpace(r[|r| - 1])))
  {
    StripSlice(s);
    StripCutsSpaces(s);
    StripTrimmed(s);
  }

  /** A string with a non-whitespace character does not strip to nothing. */
  lemma StripNonEmpty(s: string, k: nat)
    requires k < |s| && !IsSpace(s[k])
    ensures Strip(s) != []
  {
    StripSpec(s);
  }

  /** A character absent from `s` is absent from `Strip(s)`. */
  lemma StripKeepsAbsent(s: string, c: char)
    requires c !in s
    ensures c !in Strip(s)
  {
    StripSpec(s);
  }

  /** The longest prefix of `s` that holds no whitespace. */
  function WordLength(s: string): (n: nat)
    ensures n <= |s|
  {
    if s == [] || IsSpace(s[0]) then 0 else 1 + WordLength(s[1..])
  }

  lemma {:induction false} WordLengthSpec(s: string)
    ensures forall k :: 0 <= k < WordLength(s) ==> !IsSpace(s[k])
    ensures WordLength(s) < |s| ==> IsSpace(s[WordLength(s)])
  {
    if s != [] && !IsSpace(s[0]) {
      WordLengthSpec(s[1..]);
    }
  }

  /** A non-empty run of non-whitespace characters. */
  predicate IsWord(w: string) {
    w != [] && forall k :: 0 <= k < |w| ==> !IsSpace(w[k])
  }

  /** `str.split()` with no separator: the maximal runs of non-whitespace characters. */
  function Split(s: string): seq<string>
    decreases |s|
  {
    var t := s[LeadingSpaces(s)..];
    if t == [] then []
    else
      var n := WordLength(t);
      LeadingSpacesSpec(s);
      assert n > 0;
      [t[..n]] + Split(t[n..])
  }

  /** One step of `Split`: past the leading whitespace, the first word, then the split of the rest. */
  lemma SplitCons(s: string)
    ensures var t := s[LeadingSpaces(s)..];
      var n := WordLength(t);
      (t == [] ==> Split(s) == []) &&
      (t != [] ==> 0 < n && Split(s) == [t[..n]] + Split(t[n..]))
  {
    LeadingSpacesSpec(s);
  }

  lemma {:induction false} SplitAreWords(s: string)
    ensures forall j :: 0 <= j < |Split(s)| ==> IsWord(Split(s)[j])
    decreases |s|
  {
    SplitCons(s);
    var t := s[LeadingSpaces(s)..];
    if t != [] {
      var n := WordLength(t);
      WordLengthSpec(t);
      SplitAreWords(t[n..]);
      var ws, rest := Split(s), Split(t[n..]);
      forall j | 0 <= j < |ws| ensures IsWord(ws[j]) {
        if j > 0 { assert ws[j] == rest[j - 1]; } else { assert ws[j] == t[..n]; }
      }
    }
  }

  lemma {:induction false} SplitCharsFrom(s: string)
    ensures forall j, c :: 0 <= j < |Split(s)| && c in Split(s)[j] ==> c in s
    decreases |s|
  {
    SplitCons(s);
    var t := s[LeadingSpaces(s)..];
    if t != [] {
      var n := WordLength(t);
      SplitCharsFrom(t[n..]);
      var ws, rest := Split(s), Split(t[n..]);
      forall j, c | 0 <= j < |ws| && c in ws[j] ensures c in s {
        if j > 0 {
          assert ws[j] == rest[j - 1];
          assert c in t[n..];
        } else {
          assert ws[j] == t[..n];
        }
        assert c in t;
      }
    }
  }

  predicate AllSpaces(s: string) {
    forall k :: 0 <= k < |s| ==> IsSpace(s[k])
  }

  /** `gaps[0] + words[0] + gaps[1] + … + words[n - 1] + gaps[n]`. */
  function Weave(gaps: seq<string>, words: seq<string>): string
    requires |gaps| == |words| + 1
  {
    if words == [] then gaps[0] else gaps[0] + words[0] + Weave(gaps[1..], words[1..])
  }

  /**
   * `s` is `words` in order, each surrounded by whitespace gaps, with a
   * non-empty gap between any two consecutive words.
   */
  predicate SeparatedBy(s: string, gaps: seq<string>, words: seq<string>) {
    |gaps| == |words| + 1 && s == Weave(gaps, words) &&
    (forall j :: 0 <= j < |gaps| ==> AllSpaces(gaps[j])) &&
    (forall j :: 0 < j < |words| ==> gaps[j] != [])
  }

  /** A gap and a word put in front of a separated string keep it separated. */
  lemma SeparatedCons(g: string, w: string, rest: string, more: seq<string>, ws: seq<string>)
    requires SeparatedBy(rest, more, ws) && AllSpaces(g)
    requires ws != [] ==> more[0] != []
    ensures SeparatedBy(g + w + rest, [g] + more, [w] + ws)
  {
    var gaps, words := [g] + more, [w] + ws;
    assert gaps[1..] == more && words[1..] == ws;
    assert forall j :: 0 < j < |gaps| ==> gaps[j] == more[j - 1];
  }

  /** The leading whitespace of `s` is whitespace, and all of `s` when nothing follows it. */
  lemma LeadingGap(s: string)
    ensures AllSpaces(s[..LeadingSpaces(s)])
    ensures LeadingSpaces(s) == |s| ==> s[..LeadingSpaces(s)] == s
  {
    LeadingSpacesSpec(s);
  }

  /** After a word, the rest starts with whitespace whenever it holds another word. */
  lemma GapAfterWord(t: string)
    ensures Split(t[WordLength(t)..]) != [] ==> LeadingSpaces(t[WordLength(t)..]) > 0
  {
    WordLengthSpec(t);
    var rest := t[WordLength(t)..];
    if rest == [] {
      assert Split(rest) == [];
    } else {
      assert rest[0] == t[WordLength(t)];
    }
  }

  /** The whitespace gaps around the words of `Split(s)`, the first one being the leading whitespace. */
  lemma {:induction false} SplitGaps(s: string) returns (gaps: seq<string>)
    ensures SeparatedBy(s, gaps, Split(s)) && gaps[0] == s[..LeadingSpaces(s)]
    decreases |s|
  {
    SplitCons(s);
    LeadingGap(s);
    var i := LeadingSpaces(s);
    var t := s[i..];
    if t == [] {
      gaps := [s];
    } else {
      var n := WordLength(t);
      GapAfterWord(t);
      assert s == s[..i] + t[..n] + t[n..];
      var more := SplitGaps(t[n..]);
      SeparatedCons(s[..i], t[..n], t[n..], more, Split(t[n..]));
      gaps := [s[..i]] + more;
    }
  }

  /**
   * `Split(s)` is the words of `s`: each is non-empty with no whitespace and
   * made of characters of `s`, and `s` is these words in order with
   * whitespace around them and between each two, so they are exactly its
   * maximal non-whitespace runs.
   */
  lemma SplitWords(s: string)
    ensures forall j :: 0 <= j < |Split(s)| ==> IsWord(Split(s)[j])
    ensures forall j, c :: 0 <= j < |Split(s)| && c in Split(s)[j] ==> c in s
    ensures exists gaps :: SeparatedBy(s, gaps, Split(s))
  {
    SplitAreWords(s);
    SplitCharsFrom(s);
    var gaps := SplitGaps(s);
  }

  /** A string with a non-whitespace character splits into at least one word. */
  lemma SplitNonEmpty(s: string, k: nat)
    requires k < |s| && !IsSpace(s[k])
    ensures Split(s) != []
  {
    LeadingSpacesSpec(s);
  }

  /** `sep.join(words)` */
  function Join(words: seq<string>, sep: string): string {
    if words == [] then []
    else if |words| == 1 then words[0]
    else words[0] + sep + Join(words[1..], sep)
  }

  /** Where `words[i]` starts in `Join(words, sep)`: the lengths of the earlier words and separators. */
  function JoinOffset(words: seq<string>, sep: string, i: nat): nat
    requires i <= |words|
  {
    if i == 0 then 0 else |words[0]| + |sep| + JoinOffset(words[1..], sep, i - 1)
  }

  /** `Join(words, sep)` for two words or more: the first word, the separator, then the rest joined. */
  lemma JoinCons(words: seq<string>, sep: string)
    requires |words| > 1
    ensures Join(words, sep) == (words[0] + sep) + Join(words[1..], sep)
    ensures |Join(words, sep)| == |words[0]| + |sep| + |Join(words[1..], sep)|
  {
  }

  /** Word `i` sits at its offset in `Join(words, sep)`, and the last word ends it. */
  lemma {:induction false} JoinWordAt(words: seq<string>, sep: string, i: nat)
    requires i < |words|
    ensures var j := Join(words, sep);
      var o := JoinOffset(words, sep, i);
      o + |words[i]| <= |j| && j[o..o + |words[i]|] == words[i] &&
      (i + 1 == |words| ==> |j| == o + |words[i]|)
  {
    if |words| > 1 {
      JoinCons(words, sep);
      var head, rest := words[0] + sep, Join(words[1..], sep);
      if i == 0 {
        assert (head + rest)[..|words[0]|] == words[0];
      } else {
        JoinWordAt(words[1..], sep, i - 1);
        var o := JoinOffset(words[1..], sep, i - 1);
        assert words[1..][i - 1] == words[i];
        SliceOfRight(head, rest, o, o + |words[i]|);
      }
    }
  }

  /** The separator follows every word but the last in `Join(words, sep)`. */
  lemma {:induction false} JoinSepAt(words: seq<string>, sep: string, i: nat)
    requires i + 1 < |words|
    ensures var j := Join(words, sep);
      var e := JoinOffset(words, sep, i) + |words[i]|;
      e + |sep| <= |j| && j[e..e + |sep|] == sep
  {
    JoinCons(words, sep);
    var head, rest := words[0] + sep, Join(words[1..], sep);
    if i == 0 {
      assert (head + rest)[|words[0]|..|head|] == sep;
    } else {
      JoinSepAt(words[1..], sep, i - 1);
      var e := JoinOffset(words[1..], sep, i - 1) + |words[i]|;
      assert words[1..][i - 1] == words[i];
      SliceOfRight(head, rest, e, e + |sep|);
    }
  }

  /**
   * `Join(words, sep)` holds the words in order, the first at the start, each
   * at its offset, with exactly `sep` between consecutive words and nothing
   * after the last one.
   */
  lemma JoinAt(words: seq<string>, sep: string, i: nat)
    requires i < |words|
    ensures var j := Join(words, sep);
      var o := JoinOffset(words, sep, i);
      var e := o + |words[i]|;
      e <= |j| && j[o..e] == words[i] &&
      (i == 0 ==> o == 0) &&
      (i + 1 < |words| ==>
        e + |sep| <= |j| && j[e..e + |sep|] == sep && JoinOffset(words, sep, i + 1) == e + |sep|) &&
      (i + 1 == |words| ==> |j| == e)
  {
    JoinWordAt(words, sep, i);
    if i + 1 < |words| {
      JoinSepAt(words, sep, i);
      JoinOffsetNext(words, sep, i);
    }
  }

  /** The next word starts right after this word and the separator. */
  lemma {:induction false} JoinOffsetNext(words: seq<string>, sep: string, i: nat)
    requires i < |words|
    ensures JoinOffset(words, sep, i + 1) == JoinOffset(words, sep, i) + |words[i]| + |sep|
  {
    if i > 0 {
      JoinOffsetNext(words[1..], sep, i - 1);
      assert words[1..][i - 1] == words[i];
    }
  }

  /** A word followed by nothing or by whitespace is measured in full. */
  lemma {:induction false} WordLengthOfWord(w: string, rest: string)
    requires IsWord(w) && (rest == [] || IsSpace(rest[0]))
    ensures WordLength(w + rest) == |w|
  {
    assert (w + rest)[1..] == w[1..] + rest;
    if |w| > 1 {
      WordLengthOfWord(w[1..], rest);
    }
  }

  /** Splitting a word followed by whitespace, or by nothing, gives that word and the split of the rest. */
  lemma SplitWordThen(w: string, rest: string)
    requires IsWord(w) && (rest == [] || IsSpace(rest[0]))
    ensures Split(w + rest) == [w] + Split(rest)
  {
    WordLengthOfWord(w, rest);
    var s := w + rest;
    assert s[LeadingSpaces(s)..] == s;
    assert s[..|w|] == w && s[|w|..] == rest;
  }

  /** Leading whitespace does not change the split. */
  lemma SplitSpaceThen(c: char, rest: string)
    requires IsSpace(c)
    ensures Split([c] + rest) == Split(rest)
  {
    var s := [c] + rest;
    assert s[1..] == rest;
    assert s[LeadingSpaces(s)..] == rest[LeadingSpaces(rest)..];
  }

  /** `" ".join(words).split()` gives the words back. */
  lemma {:induction false} SplitJoin(words: seq<string>)
    requires forall j :: 0 <= j < |words| ==> IsWord(words[j])
    ensures Split(Join(words, " ")) == words
  {
    if words == [] {
      assert Split([]) == [];
    } else if |words| == 1 {
      SplitWordThen(words[0], []);
      assert words[0] + [] == words[0];
      assert Split([]) == [];
    } else {
      var rest := Join(words[1..], " ");
      SplitJoin(words[1..]);
      SplitSpaceThen(' ', rest);
      SplitWordThen(words[0], " " + rest);
      assert Join(words, " ") == words[0] + (" " + rest);
    }
  }

  /** A slice of the right part of a concatenation, at shifted offsets. */
  lemma SliceOfRight<T>(a: seq<T>, b: seq<T>, x: nat, y: nat)
    requires x <= y <= |b|
    ensures (a + b)[|a| + x..|a| + y] == b[x..y]
  {
    assert forall k :: 0 <= k < y - x ==> (a + b)[|a| + x..|a| + y][k] == b[x..y][k];
  }

  function DigitChar(d: nat): (c: char)
    requires d < 10
    ensures IsDigit(c)
  {
    ('0' as int + d) as char
  }

  /** `str(n)` for a natural number: its decimal digits, without leading zeros. */
  function NatToString(n: nat): (s: string)
    ensures |s| >= 1
    ensures n >= 10 ==> |s| >= 2
    ensures AllDigits(s)
  {
    if n < 10 then [DigitChar(n)] else NatToString(n / 10) + [DigitChar(n % 10)]
  }

  /** The number a string of decimal digits denotes. */
  function DecimalValue(s: string): nat
    requires forall k :: 0 <= k < |s| ==> IsDigit(s[k])
  {
    if s == [] then 0
    else
      assert IsDigit(s[|s| - 1]);
      assert forall k :: 0 <= k < |s| - 1 ==> s[..|s| - 1][k] == s[k];
      10 * DecimalValue(s[..|s| - 1]) + (s[|s| - 1] as int - '0' as int)
  }

  /** `str(n)` denotes `n` and has no leading zero. */
  lemma {:induction false} NatToStringValue(n: nat)
    ensures DecimalValue(NatToString(n)) == n
    ensures |NatToString(n)| > 1 ==> NatToString(n)[0] != '0'
  {
    var s := NatToString(n);
    if n >= 10 {
      NatToStringValue(n / 10);
      assert s[..|s| - 1] == NatToString(n / 10);
      assert s[|s| - 1] == DigitChar(n % 10);
      assert s[0] == NatToString(n / 10)[0];
    }
  }

  /** Every `str(n)` denotes `n`. */
  lemma NatToStringValues()
    ensures forall n: nat :: DecimalValue(NatToString(n)) == n
  {
    forall n: nat ensures DecimalValue(NatToString(n)) == n {
      NatToStringValue(n);
    }
  }

  /** Distinct numbers have distinct decimal representations. */
  lemma {:induction false} NatToStringInjective(a: nat, b: nat)
    requires NatToString(a) == NatToString(b)
    ensures a == b
  {
    var sa, sb := NatToString(a), NatToString(b);
    if a < 10 && b < 10 {
      assert sa[0] == DigitChar(a) && sb[0] == DigitChar(b);
    } else if a >= 10 && b >= 10 {
      assert sa[|sa| - 1] == DigitChar(a % 10);
      assert sb[|sb| - 1] == DigitChar(b % 10);
      assert NatToString(a / 10) == sa[..|sa| - 1];
      assert NatToString(b / 10) == sb[..|sb| - 1];
      NatToStringInjective(a / 10, b / 10);
    }
  }
}
