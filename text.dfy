/**
 * The few pieces of Python string handling the bots rely on: str.isspace,
 * str.strip, str.split(sep), str.split() with no argument, str.lower and
 * " ".join.  Strings are sequences of Unicode code points.
 */
module Text {
  import Seqs

  /** Python's str.isspace for one code point: the characters that
      str.strip() removes and str.split() splits on. */
  predicate IsSpace(c: char) {
    var n := c as int;
    (9 <= n <= 13) || (28 <= n <= 32) || n == 0x85 || n == 0xA0 || n == 0x1680
    || (0x2000 <= n <= 0x200A) || n == 0x2028 || n == 0x2029 || n == 0x202F
    || n == 0x205F || n == 0x3000
  }

  predicate AllSpace(s: string) {
    forall k :: 0 <= k < |s| ==> IsSpace(s[k])
  }

  /** No whitespace at either end (vacuously true of the empty string). */
  predicate Trimmed(s: string) {
    s == [] || (!IsSpace(s[0]) && !IsSpace(s[|s| - 1]))
  }

  /** A word as str.split() yields it: non-empty, with no whitespace in it. */
  predicate IsWord(w: string) {
    |w| > 0 && forall k :: 0 <= k < |w| ==> !IsSpace(w[k])
  }

  predicate AllWords(ws: seq<string>) {
    forall j :: 0 <= j < |ws| ==> IsWord(ws[j])
  }

  // ---------------------------------------------------------------- strip

  /** str.lstrip(): drops the leading whitespace. */
  function TrimStart(s: string): (r: string)
    ensures |r| <= |s| && r == s[|s| - |r|..]
    ensures AllSpace(s[..|s| - |r|])
    ensures r != [] ==> !IsSpace(r[0])
    decreases |s|
  {
    if |s| > 0 && IsSpace(s[0]) then
      var r := TrimStart(s[1..]);
      assert s[..|s| - |r|] == [s[0]] + s[1..][..|s| - 1 - |r|];
      r
    else s
  }

  /** str.rstrip(): drops the trailing whitespace. */
  function TrimEnd(s: string): (r: string)
    ensures |r| <= |s| && r == s[..|r|]
    ensures AllSpace(s[|r|..])
    ensures r != [] ==> !IsSpace(r[|r| - 1])
    decreases |s|
  {
    if |s| > 0 && IsSpace(s[|s| - 1]) then
      var r := TrimEnd(s[..|s| - 1]);
      assert s[|r|..] == s[..|s| - 1][|r|..] + [s[|s| - 1]];
      r
    else s
  }

  /** str.strip(): the string without its leading and trailing whitespace. */
  function Strip(s: string): (r: string)
    ensures Trimmed(r)
    ensures r == [] ==> AllSpace(s)
  {
    TrimBoth(s);
    TrimEnd(TrimStart(s))
  }

  lemma TrimBoth(s: string)
    ensures Trimmed(TrimEnd(TrimStart(s)))
    ensures TrimEnd(TrimStart(s)) == [] ==> AllSpace(s)
  {
    var t := TrimStart(s);
    var r := TrimEnd(t);
    if r != [] {
      assert t != [] && r == t[..|r|];
      assert r[0] == t[0];
    } else {
      var m := |s| - |t|;
      assert s[m..] == t;
      assert t[0..] == t;
      AllSpaceSplit(s, m);
    }
  }

  lemma AllSpaceSplit(s: string, m: nat)
    requires m <= |s| && AllSpace(s[..m]) && AllSpace(s[m..])
    ensures AllSpace(s)
  {
    forall k | 0 <= k < |s|
      ensures IsSpace(s[k])
    {
      if k < m {
        assert s[k] == s[..m][k];
      } else {
        assert s[k] == s[m..][k - m];
      }
    }
  }

  lemma {:induction false} TrimStartSpaces(a: string, r: string)
    requires AllSpace(a)
    requires r == [] || !IsSpace(r[0])
    ensures TrimStart(a + r) == r
    decreases |a|
  {
    if a == [] {
      assert a + r == r;
    } else {
      assert (a + r)[1..] == a[1..] + r;
      TrimStartSpaces(a[1..], r);
    }
  }

  lemma {:induction false} TrimEndSpaces(r: string, b: string)
    requires AllSpace(b)
    requires r == [] || !IsSpace(r[|r| - 1])
    ensures TrimEnd(r + b) == r
    decreases |b|
  {
    if b == [] {
      assert r + b == r;
    } else {
      assert (r + b)[..|r + b| - 1] == r + b[..|b| - 1];
      TrimEndSpaces(r, b[..|b| - 1]);
    }
  }

  /** Strip is characterised by its result: whatever trimmed text is
      surrounded by whitespace, stripping gives back exactly that text. */
  lemma StripSurrounded(a: string, r: string, b: string)
    requires AllSpace(a) && AllSpace(b) && Trimmed(r) && (r == [] ==> b == [])
    ensures Strip(a + r + b) == r
  {
    if r == [] {
      assert a + r + b == a;
      assert a == a + [];
      TrimStartSpaces(a, []);
      assert TrimEnd([]) == [];
    } else {
      assert a + r + b == a + (r + b);
      TrimStartSpaces(a, r + b);
      TrimEndSpaces(r, b);
    }
  }

  /** Stripping twice strips nothing more. */
  lemma StripIdempotent(s: string)
    ensures Strip(Strip(s)) == Strip(s)
  {
    var r := Strip(s);
    assert [] + r + [] == r;
    StripSurrounded([], r, []);
  }

  // ---------------------------------------------------------- split(sep)

  /** str.split(sep) with an explicit one-character separator: every
      separator occurrence ends one field, so there is always one field
      more than there are separators. */
  function Split(s: string, sep: char): (r: seq<string>)
    ensures |r| == Count(s, sep) + 1
    ensures forall i :: 0 <= i < |r| ==> sep !in r[i]
    decreases |s|
  {
    if s == [] then [""]
    else
      var rest := Split(s[1..], sep);
      if s[0] == sep then [""] + rest
      else [[s[0]] + rest[0]] + rest[1..]
  }

  /** Number of occurrences of c in s. */
  function Count(s: string, c: char): nat
    decreases |s|
  {
    if s == [] then 0 else (if s[0] == c then 1 else 0) + Count(s[1..], c)
  }

  /** sep.join(parts) for a one-character separator. */
  function Join(parts: seq<string>, sep: char): string
    requires |parts| > 0
  {
    if |parts| == 1 then parts[0] else parts[0] + [sep] + Join(parts[1..], sep)
  }

  /** Joining the fields of a split gives back the original string. */
  lemma {:induction false} JoinSplit(s: string, sep: char)
    ensures Join(Split(s, sep), sep) == s
    decreases |s|
  {
    if s != [] {
      var rest := Split(s[1..], sep);
      JoinSplit(s[1..], sep);
      if s[0] == sep {
        assert Split(s, sep)[1..] == rest;
        assert s == [sep] + s[1..];
      } else {
        var r := Split(s, sep);
        if |rest| == 1 {
          assert r == [[s[0]] + rest[0]];
        } else {
          assert r[1..] == rest[1..];
          assert Join(rest, sep) == rest[0] + [sep] + Join(rest[1..], sep);
        }
      }
    }
  }

  /** Splitting a join of separator-free fields gives back those fields. */
  lemma {:induction false} SplitJoin(parts: seq<string>, sep: char)
    requires |parts| > 0
    requires forall i :: 0 <= i < |parts| ==> sep !in parts[i]
    ensures Split(Join(parts, sep), sep) == parts
    decreases |parts|, |parts[0]|
  {
    var p0 := parts[0];
    if |parts| == 1 {
      SplitNoSeparator(p0, sep);
    } else if p0 == [] {
      var tail := Join(parts[1..], sep);
      assert Join(parts, sep) == [sep] + tail;
      assert ([sep] + tail)[1..] == tail;
      SplitJoin(parts[1..], sep);
      assert parts == [""] + parts[1..];
    } else {
      var shorter := [p0[1..]] + parts[1..];
      assert shorter[1..] == parts[1..];
      assert sep !in p0[1..] by {
        forall k | 0 <= k < |p0[1..]| ensures p0[1..][k] != sep { assert p0[1..][k] == p0[k + 1]; }
      }
      SplitJoin(shorter, sep);
      var s := Join(parts, sep);
      if |parts| > 1 {
        assert s == [p0[0]] + Join(shorter, sep);
      }
      assert s[1..] == Join(shorter, sep);
      assert p0 == [p0[0]] + p0[1..];
    }
  }

  lemma {:induction false} SplitNoSeparator(s: string, sep: char)
    requires sep !in s
    ensures Split(s, sep) == [s]
    decreases |s|
  {
    if s != [] {
      assert sep !in s[1..] by {
        forall k | 0 <= k < |s[1..]| ensures s[1..][k] != sep { assert s[1..][k] == s[k + 1]; }
      }
      SplitNoSeparator(s[1..], sep);
      assert s == [s[0]] + s[1..];
    }
  }

  // --------------------------------------------------------------- split()

  /** The longest prefix of s that holds no whitespace. */
  function LeadingWord(s: string): (w: string)
    ensures |w| <= |s| && w == s[..|w|]
    ensures forall k :: 0 <= k < |w| ==> !IsSpace(w[k])
    ensures |w| < |s| ==> IsSpace(s[|w|])
    ensures |s| > 0 && !IsSpace(s[0]) ==> IsWord(w)
    decreases |s|
  {
    if |s| > 0 && !IsSpace(s[0]) then
      var w := LeadingWord(s[1..]);
      assert s[..1 + |w|] == [s[0]] + s[1..][..|w|];
      [s[0]] + w
    else []
  }

  /** str.split() with no argument: the maximal runs of non-whitespace, in
      order; leading, trailing and repeated whitespace yield no empty words. */
  function Words(s: string): (ws: seq<string>)
    ensures AllWords(ws)
    decreases |s|
  {
    var t := TrimStart(s);
    if t == [] then []
    else
      var w := LeadingWord(t);
      var rest := Words(t[|w|..]);
      AllWordsCons(w, rest);
      [w] + rest
  }

  lemma AllWordsCons(w: string, rest: seq<string>)
    requires IsWord(w) && AllWords(rest)
    ensures AllWords([w] + rest)
  {
    forall j | 0 <= j < |[w] + rest|
      ensures IsWord(([w] + rest)[j])
    {
      if j > 0 {
        assert ([w] + rest)[j] == rest[j - 1];
      }
    }
  }

  /** The words joined with single spaces, as str.join with " " does. */
  function JoinSpace(ws: seq<string>): string
    decreases |ws|
  {
    if |ws| == 0 then ""
    else if |ws| == 1 then ws[0]
    else ws[0] + " " + JoinSpace(ws[1..])
  }

  lemma LeadingWordOf(w: string, rest: string)
    requires IsWord(w)
    requires rest == [] || IsSpace(rest[0])
    ensures LeadingWord(w + rest) == w
  {
    var lw := LeadingWord(w + rest);
    assert (w + rest)[..|w|] == w;
  }

  lemma WordsAfterSpace(s: string)
    ensures Words(" " + s) == Words(s)
  {
    assert (" " + s)[1..] == s;
    assert TrimStart(" " + s) == TrimStart(s);
  }

  /** Any leading whitespace (spaces, tabs, newlines, in any number) is
      dropped without a word; with s empty, all-whitespace text has no words. */
  lemma WordsAfterSpaces(a: string, s: string)
    requires AllSpace(a)
    ensures Words(a + s) == Words(s)
  {
    TrimStartAfterSpaces(a, s);
  }

  lemma {:induction false} TrimStartAfterSpaces(a: string, s: string)
    requires AllSpace(a)
    ensures TrimStart(a + s) == TrimStart(s)
    decreases |a|
  {
    if a == [] {
      assert a + s == s;
    } else {
      assert (a + s)[1..] == a[1..] + s;
      TrimStartAfterSpaces(a[1..], s);
    }
  }

  /** A word followed by whitespace is the first word. */
  lemma WordsOfWord(w: string, rest: string)
    requires IsWord(w)
    requires rest == [] || IsSpace(rest[0])
    ensures Words(w + rest) == [w] + Words(rest)
  {
    var s := w + rest;
    LeadingWordOf(w, rest);
    TrimStartSpaces([], s);
    assert [] + s == s;
    assert s[|w|..] == rest;
  }

  lemma WordsOfSingle(w: string)
    requires IsWord(w)
    ensures Words(w) == [w]
  {
    assert w + [] == w;
    LeadingWordOf(w, []);
    assert TrimStart(w) == w;
    assert w[|w|..] == [];
    assert Words([]) == [];
  }

  lemma JoinSpaceCons(w: string, tail: seq<string>)
    requires |tail| > 0
    ensures JoinSpace([w] + tail) == w + (" " + JoinSpace(tail))
  {
    assert ([w] + tail)[0] == w && ([w] + tail)[1..] == tail;
    Seqs.AppendAssoc(w, " ", JoinSpace(tail));
  }

  lemma WordsOfWordThenJoin(w: string, tail: seq<string>)
    requires IsWord(w) && |tail| > 0
    ensures Words(JoinSpace([w] + tail)) == [w] + Words(JoinSpace(tail))
  {
    var t := JoinSpace(tail);
    JoinSpaceCons(w, tail);
    WordsOfWord(w, " " + t);
    WordsAfterSpace(t);
  }

  /** Splitting a space-join of words gives back the words. */
  lemma {:induction false} WordsOfJoin(ws: seq<string>)
    requires AllWords(ws)
    ensures Words(JoinSpace(ws)) == ws
    decreases |ws|
  {
    if |ws| == 1 {
      WordsOfSingle(ws[0]);
    } else if |ws| > 1 {
      var tail := ws[1..];
      assert ws == [ws[0]] + tail;
      assert AllWords(tail);
      WordsOfJoin(tail);
      WordsOfWordThenJoin(ws[0], tail);
    }
  }

  lemma {:induction false} JoinSpaceFirst(ws: seq<string>)
    requires AllWords(ws) && |ws| > 0
    ensures |JoinSpace(ws)| > 0 && JoinSpace(ws)[0] == ws[0][0]
    decreases |ws|
  {
  }

  /** Joining one more word appends a space and the word, for a non-empty list. */
  lemma {:induction false} JoinSpaceSnoc(ws: seq<string>, w: string)
    requires |ws| > 0
    ensures JoinSpace(ws + [w]) == JoinSpace(ws) + " " + w
    decreases |ws|
  {
    if |ws| > 1 {
      assert (ws + [w])[1..] == ws[1..] + [w];
      JoinSpaceSnoc(ws[1..], w);
    }
  }

  lemma JoinSpaceTrimmed(ws: seq<string>)
    requires AllWords(ws)
    ensures Trimmed(JoinSpace(ws))
  {
    if |ws| > 0 {
      JoinSpaceFirst(ws);
      var last := ws[|ws| - 1];
      if |ws| == 1 {
      } else {
        var init := ws[..|ws| - 1];
        assert ws == init + [last];
        JoinSpaceSnoc(init, last);
      }
    }
  }

  /** The test line the word wrap builds: stripping "<line> <word>" is the
      space-join of the line's words followed by the new word. */
  lemma StripExtend(ws: seq<string>, w: string)
    requires AllWords(ws) && IsWord(w)
    ensures Strip(JoinSpace(ws) + " " + w) == JoinSpace(ws + [w])
  {
    if ws == [] {
      assert JoinSpace(ws) + " " + w == " " + w + [];
      assert [] + [w] == [w];
      StripSurrounded(" ", w, []);
    } else {
      JoinSpaceSnoc(ws, w);
      assert AllWords(ws + [w]);
      JoinSpaceTrimmed(ws + [w]);
      assert [] + JoinSpace(ws + [w]) + [] == JoinSpace(ws + [w]);
      StripSurrounded([], JoinSpace(ws + [w]), []);
    }
  }

  // ---------------------------------------------------------------- lower

  /** The capital letters LowerChar lowers, with str.lower()'s mapping:
      A-Z; the Latin-1 capitals U+00C0-U+00DE except the multiplication
      sign U+00D7; the Cyrillic capitals U+0400-U+042F; and the Cyrillic
      capitals of U+0460-U+052F, which sit at the even (or, for U+04C1-U+04CE,
      odd) code point just before their small letter, with U+04C0 paired
      with U+04CF. */
  predicate IsUpper(c: char) {
    var n := c as int;
    ('A' as int <= n <= 'Z' as int)
    || (0xC0 <= n <= 0xDE && n != 0xD7)
    || (0x400 <= n <= 0x42F)
    || n == 0x4C0
    || PairedCyrillicCapital(n)
  }

  /** A capital of U+0460-U+052F whose small letter is the next code point. */
  predicate PairedCyrillicCapital(n: int) {
    ((0x460 <= n <= 0x480 || 0x48A <= n <= 0x4BE || 0x4D0 <= n <= 0x52E) && n % 2 == 0)
    || (0x4C1 <= n <= 0x4CD && n % 2 == 1)
  }

  /** str.lower() on one code point, for the capitals IsUpper names. */
  function LowerChar(c: char): char {
    var n := c as int;
    if 'A' as int <= n <= 'Z' as int then (n + 32) as char
    else if 0xC0 <= n <= 0xDE && n != 0xD7 then (n + 32) as char
    else if 0x410 <= n <= 0x42F then (n + 32) as char
    else if 0x400 <= n <= 0x40F then (n + 80) as char
    else if n == 0x4C0 then 0x4CF as char
    else if PairedCyrillicCapital(n) then (n + 1) as char
    else c
  }

  /** LowerChar changes exactly the covered capitals, each to a character
      that is not a capital and not white space; white space is kept. */
  lemma LowerCharMeaning(c: char)
    ensures LowerChar(c) != c <==> IsUpper(c)
    ensures !IsUpper(LowerChar(c))
    ensures IsSpace(LowerChar(c)) <==> IsSpace(c)
  {
  }

  /** str.lower(), for the letters LowerChar covers. */
  function Lower(s: string): (r: string)
    ensures |r| == |s|
    ensures forall k :: 0 <= k < |s| ==> r[k] == LowerChar(s[k])
  {
    seq(|s|, k requires 0 <= k < |s| => LowerChar(s[k]))
  }

  /** After lowering no covered capital is left, and every other character
      is kept in place. */
  lemma LowerNoCapitals(s: string)
    ensures forall k :: 0 <= k < |s| ==> !IsUpper(Lower(s)[k])
    ensures forall k :: 0 <= k < |s| && !IsUpper(s[k]) ==> Lower(s)[k] == s[k]
  {
    forall k | 0 <= k < |s|
      ensures !IsUpper(Lower(s)[k]) && (!IsUpper(s[k]) ==> Lower(s)[k] == s[k])
    {
      LowerCharMeaning(s[k]);
    }
  }

  /** Lowering twice is lowering once. */
  lemma LowerIdempotent(s: string)
    ensures Lower(Lower(s)) == Lower(s)
  {
    LowerNoCapitals(s);
    LowerNoCapitals(Lower(s));
  }

  /** Lowering keeps white space where it is, so a stripped string stays stripped. */
  lemma LowerTrimmed(s: string)
    requires Trimmed(s)
    ensures Trimmed(Lower(s))
  {
    if s != [] {
      LowerCharMeaning(s[0]);
      LowerCharMeaning(s[|s| - 1]);
    }
  }
}
