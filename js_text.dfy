/** The JavaScript string built-ins the components rely on: `Array.prototype.join`,
    `String.prototype.split` with a one-character separator, `trim`, `toLowerCase`
    and the punctuation-stripping `replace` of the speech matcher. */
module JsText {

  /** The number of characters in all the pieces together. */
  function TotalLength(ws: seq<string>): nat
  {
    if |ws| == 0 then 0 else |ws[0]| + TotalLength(ws[1..])
  }

  /** `ws.join(sep)`: the elements separated by `sep`; an empty array joins to "". The
      result holds every piece and one separator between each two neighbours. */
  function Join(ws: seq<string>, sep: string): (r: string)
    ensures |ws| == 0 ==> r == ""
    ensures |ws| > 0 ==> |r| + |sep| == TotalLength(ws) + |ws| * |sep|
  {
    if |ws| == 0 then ""
    else if |ws| == 1 then ws[0]
    else ws[0] + sep + Join(ws[1..], sep)
  }

  /** `s.split(c)` for a one-character separator: the maximal pieces between
      occurrences of `c`; there is at least one piece and none contains `c`. */
  function SplitOn(s: string, c: char): (parts: seq<string>)
    ensures |parts| >= 1
    ensures forall i :: 0 <= i < |parts| ==> c !in parts[i]
  {
    if |s| == 0 then [""]
    else
      var rest := SplitOn(s[1..], c);
      if s[0] == c then [""] + rest
      else [[s[0]] + rest[0]] + rest[1..]
  }

  /** Joining the pieces of a split with the separator gives the string back. */
  lemma {:induction false} SplitOnJoins(s: string, c: char)
    ensures Join(SplitOn(s, c), [c]) == s
  {
    if |s| > 0 {
      var rest := SplitOn(s[1..], c);
      SplitOnJoins(s[1..], c);
      assert s == [s[0]] + s[1..];
      if s[0] != c {
        var parts := [[s[0]] + rest[0]] + rest[1..];
        assert parts[1..] == rest[1..];
      }
    }
  }

  /** The first piece of a join is a prefix of it, followed by the separator when more pieces follow. */
  lemma {:induction false} JoinHead(ws: seq<string>, c: char)
    requires |ws| >= 1
    ensures |Join(ws, [c])| >= |ws[0]|
    ensures Join(ws, [c])[..|ws[0]|] == ws[0]
    ensures |ws| == 1 ==> Join(ws, [c]) == ws[0]
    ensures |ws| > 1 ==> Join(ws, [c]) == ws[0] + [c] + Join(ws[1..], [c])
  {
  }

  /** Every character of a piece occurs in the join. */
  lemma {:induction false} JoinKeepsChars(ws: seq<string>, c: char, i: nat)
    requires i < |ws|
    ensures forall ch :: ch in ws[i] ==> ch in Join(ws, [c])
  {
    JoinHead(ws, c);
    if i == 0 {
      forall ch | ch in ws[0] ensures ch in Join(ws, [c]) {
        var k :| 0 <= k < |ws[0]| && ws[0][k] == ch;
        assert Join(ws, [c])[..|ws[0]|][k] == ch;
      }
    } else {
      JoinKeepsChars(ws[1..], c, i - 1);
      assert ws[1..][i - 1] == ws[i];
    }
  }

  /** The index of the first `c` in `s`, or `|s|` when there is none. */
  function FirstIndexOf(s: string, c: char): (k: nat)
    ensures k <= |s|
  {
    if |s| == 0 || s[0] == c then 0 else 1 + FirstIndexOf(s[1..], c)
  }

  lemma {:induction false} FirstIndexOfIs(s: string, c: char, k: nat)
    requires k <= |s|
    requires forall i :: 0 <= i < k ==> s[i] != c
    requires k == |s| || s[k] == c
    ensures FirstIndexOf(s, c) == k
  {
    if k > 0 {
      FirstIndexOfIs(s[1..], c, k - 1);
    }
  }

  /** In a join of separator-free pieces the first piece ends at the first separator. */
  lemma HeadEndsAtFirst(ws: seq<string>, c: char)
    requires |ws| >= 1
    requires forall i :: 0 <= i < |ws| ==> c !in ws[i]
    ensures |ws[0]| == FirstIndexOf(Join(ws, [c]), c)
  {
    var s := Join(ws, [c]);
    JoinHead(ws, c);
    forall i | 0 <= i < |ws[0]| ensures s[i] != c {
      assert s[i] == ws[0][i];
    }
    FirstIndexOfIs(s, c, |ws[0]|);
  }

  /** Joining pieces that do not contain the separator loses nothing: two non-empty
      lists of separator-free pieces with the same join are equal. */
  lemma {:induction false} JoinInjective(xs: seq<string>, ys: seq<string>, c: char)
    requires |xs| >= 1 && |ys| >= 1
    requires forall i :: 0 <= i < |xs| ==> c !in xs[i]
    requires forall i :: 0 <= i < |ys| ==> c !in ys[i]
    requires Join(xs, [c]) == Join(ys, [c])
    ensures xs == ys
  {
    var s := Join(xs, [c]);
    var x, y := xs[0], ys[0];
    JoinHead(xs, c);
    JoinHead(ys, c);
    HeadEndsAtFirst(xs, c);
    HeadEndsAtFirst(ys, c);
    assert x == s[..|x|] == y;
    if |xs| > 1 && |ys| > 1 {
      assert Join(xs[1..], [c]) == s[|x| + 1..] == Join(ys[1..], [c]);
      JoinInjective(xs[1..], ys[1..], c);
      assert xs == [x] + xs[1..];
      assert ys == [y] + ys[1..];
    }
  }

  /** `split` is the only way to cut a string into separator-free pieces that join back to it. */
  lemma SplitOnUnique(s: string, c: char, parts: seq<string>)
    requires |parts| >= 1
    requires forall i :: 0 <= i < |parts| ==> c !in parts[i]
    requires Join(parts, [c]) == s
    ensures parts == SplitOn(s, c)
  {
    SplitOnJoins(s, c);
    JoinInjective(parts, SplitOn(s, c), c);
  }

  /** The characters `String.prototype.trim` removes: ECMAScript WhiteSpace and LineTerminator. */
  predicate IsWhiteSpace(ch: char)
  {
    var n := ch as int;
    || (9 <= n <= 13)          // tab, line feed, vertical tab, form feed, carriage return
    || n == 0x20 || n == 0xA0 || n == 0x1680
    || (0x2000 <= n <= 0x200A)
    || n == 0x2028 || n == 0x2029 || n == 0x202F || n == 0x205F || n == 0x3000 || n == 0xFEFF
  }

  /** Drops the leading white space. */
  function TrimStart(s: string): (r: string)
    ensures |r| <= |s| && r == s[|s| - |r|..]
    ensures forall i :: 0 <= i < |s| - |r| ==> IsWhiteSpace(s[i])
    ensures r == [] || !IsWhiteSpace(r[0])
  {
    if |s| > 0 && IsWhiteSpace(s[0]) then TrimStart(s[1..]) else s
  }

  /** Drops the trailing white space. */
  function TrimEnd(s: string): (r: string)
    ensures |r| <= |s| && r == s[..|r|]
    ensures forall i :: |r| <= i < |s| ==> IsWhiteSpace(s[i])
    ensures r == [] || !IsWhiteSpace(r[|r| - 1])
  {
    if |s| > 0 && IsWhiteSpace(s[|s| - 1]) then TrimEnd(s[..|s| - 1]) else s
  }

  /** `s.trim()`: the slice of `s` left after white space is dropped from both ends. Only
      white space is dropped, and the result neither starts nor ends with white space. */
  function Trim(s: string): (r: string)
    ensures exists i :: 0 <= i <= |s| - |r| && r <= s[i..]
                        && (forall k :: 0 <= k < i ==> IsWhiteSpace(s[k]))
                        && (forall k :: i + |r| <= k < |s| ==> IsWhiteSpace(s[k]))
    ensures r == [] || (!IsWhiteSpace(r[0]) && !IsWhiteSpace(r[|r| - 1]))
  {
    var t := TrimStart(s);
    var r := TrimEnd(t);
    TrailingWhiteSpace(s, t, r);
    assert r <= s[|s| - |t|..];
    r
  }

  /** What `TrimEnd` drops from the tail of the tail `t` of `s` is white space in `s`. */
  lemma TrailingWhiteSpace(s: string, t: string, r: string)
    requires |t| <= |s| && t == s[|s| - |t|..]
    requires |r| <= |t| && forall i :: |r| <= i < |t| ==> IsWhiteSpace(t[i])
    ensures forall k :: |s| - |t| + |r| <= k < |s| ==> IsWhiteSpace(s[k])
  {
    forall k | |s| - |t| + |r| <= k < |s| ensures IsWhiteSpace(s[k]) {
      assert s[k] == t[k - (|s| - |t|)];
    }
  }

  /** Trimming only drops characters. */
  lemma TrimKeepsChars(s: string)
    ensures forall ch :: ch in Trim(s) ==> ch in s
  {
    var t := TrimStart(s);
    var r := TrimEnd(t);
    assert Trim(s) == r;
    forall ch | ch in r ensures ch in s {
      var k :| 0 <= k < |r| && r[k] == ch;
      assert t[k] == ch;
      assert s[|s| - |t| + k] == ch;
    }
  }

  /** The capitals `toLowerCase` maps to a single lower-case letter in Basic Latin,
      Latin-1 Supplement and Latin Extended-A (`İ`, U+0130, aside: it lower-cases to two
      characters). */
  predicate IsCapital(ch: char)
  {
    var n := ch as int;
    || ('A' <= ch <= 'Z')
    || (0xC0 <= n <= 0xDE && n != 0xD7)
    || (0x100 <= n <= 0x12F && n % 2 == 0)
    || (0x132 <= n <= 0x137 && n % 2 == 0)
    || (0x139 <= n <= 0x148 && n % 2 == 1)
    || (0x14A <= n <= 0x177 && n % 2 == 0)
    || n == 0x178
    || (0x179 <= n <= 0x17E && n % 2 == 1)
  }

  /** `toLowerCase` on one character: a capital becomes its small letter, which is not a
      capital, and every other character is kept. */
  function LowerChar(ch: char): (lc: char)
    ensures lc != ch <==> IsCapital(ch)
    ensures !IsCapital(lc)
  {
    var n := ch as int;
    if 'A' <= ch <= 'Z' || (0xC0 <= n <= 0xDE && n != 0xD7) then (n + 32) as char
    else if n == 0x178 then 0xFF as char
    else if IsCapital(ch) then (n + 1) as char
    else ch
  }

  /** `s.toLowerCase()`, character by character; the length is kept. */
  function Lower(s: string): (r: string)
    ensures |r| == |s|
  {
    seq(|s|, i requires 0 <= i < |s| => LowerChar(s[i]))
  }

  /** Lower-casing changes exactly the capitals, each where it stands. */
  lemma LowerChangesOnlyCapitals(s: string)
    ensures forall i :: 0 <= i < |s| ==> (Lower(s)[i] == s[i] <==> !IsCapital(s[i]))
  {
  }

  /** No character of a lower-cased string is a capital. */
  lemma LowerHasNoCapital(s: string)
    ensures forall ch :: ch in Lower(s) ==> !IsCapital(ch)
  {
    forall ch | ch in Lower(s) ensures !IsCapital(ch) {
      var k :| 0 <= k < |s| && Lower(s)[k] == ch;
    }
  }

  /** Lower-casing twice is lower-casing once. */
  lemma LowerIdempotent(s: string)
    ensures Lower(Lower(s)) == Lower(s)
  {
  }

  /** The character class `[.,/#!$%^&*;:{}=\-_`~()]` of the speech matcher's `replace`. */
  const Punctuation: set<char> :=
    {'.', ',', '/', '#', '!', '$', '%', '^', '&', '*', ';', ':', '{', '}', '=', '-', '_', '`', '~', '(', ')'}

  /** `s.replace(/[.,/#!$%^&*;:{}=\-_`~()]/g, "")`: every punctuation character removed. */
  function StripPunctuation(s: string): (r: string)
    ensures forall i :: 0 <= i < |r| ==> r[i] !in Punctuation
    ensures |r| <= |s|
  {
    if |s| == 0 then ""
    else
      var rest := StripPunctuation(s[1..]);
      if s[0] in Punctuation then rest else [s[0]] + rest
  }

  /** Stripping keeps every other character as often as it occurs. */
  lemma {:induction false} StripPunctuationKeepsOthers(s: string)
    ensures forall ch :: ch !in Punctuation ==> multiset(StripPunctuation(s))[ch] == multiset(s)[ch]
  {
    if |s| > 0 {
      StripPunctuationKeepsOthers(s[1..]);
      assert s == [s[0]] + s[1..];
    }
  }

  /** Stripping only drops characters. */
  lemma {:induction false} StripPunctuationKeepsChars(s: string)
    ensures forall ch :: ch in StripPunctuation(s) ==> ch in s
  {
    if |s| > 0 {
      StripPunctuationKeepsChars(s[1..]);
      assert s == [s[0]] + s[1..];
    }
  }

  /** Every character of a piece of a split occurs in the split string. */
  lemma SplitOnKeepsChars(s: string, c: char, i: nat)
    requires i < |SplitOn(s, c)|
    ensures forall ch :: ch in SplitOn(s, c)[i] ==> ch in s
  {
    SplitOnJoins(s, c);
    JoinKeepsChars(SplitOn(s, c), c, i);
  }

  /** Stripping works piece by piece, so the kept characters stay in their order: the
      result of a concatenation is the concatenation of the results. */
  lemma {:induction false} StripPunctuationAppend(a: string, b: string)
    ensures StripPunctuation(a + b) == StripPunctuation(a) + StripPunctuation(b)
  {
    if |a| > 0 {
      StripPunctuationAppend(a[1..], b);
      assert (a + b)[0] == a[0] && (a + b)[1..] == a[1..] + b;
    } else {
      assert a + b == b;
    }
  }
}
