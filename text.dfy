/** The parts of Python's str and int that the bot's logic depends on:
    int() on the message-id argument, str.lower() on the welcome mode,
    str.replace() on the welcome template, and decimal rendering of ids. */
module Text {
  import opened Wrappers

  predicate IsDigit(c: char) { '0' <= c <= '9' }

  predicate AllDigits(s: string) { forall i | 0 <= i < |s| :: IsDigit(s[i]) }

  /** The ASCII characters Python's int() strips as whitespace: space and
      \t, \n, \v, \f, \r. */
  predicate IsSpace(c: char)
  {
    c == ' ' || 9 <= c as int <= 13
  }

  function TrimStart(s: string): (t: string)
    ensures |t| <= |s| && t == s[|s| - |t|..]
    ensures t == [] || !IsSpace(t[0])
    ensures forall i | 0 <= i < |s| - |t| :: IsSpace(s[i])
  {
    if s != [] && IsSpace(s[0]) then TrimStart(s[1..]) else s
  }

  function TrimEnd(s: string): (t: string)
    ensures |t| <= |s| && t == s[..|t|]
    ensures t == [] || !IsSpace(t[|t| - 1])
    ensures forall i | |t| <= i < |s| :: IsSpace(s[i])
  {
    if s != [] && IsSpace(s[|s| - 1]) then TrimEnd(s[..|s| - 1]) else s
  }

  /** s with leading and trailing whitespace removed: a slice s[a..b] where
      everything cut off is whitespace and the ends kept are not. */
  function Strip(s: string): (t: string)
    ensures exists a, b | 0 <= a <= b <= |s| :: t == s[a..b] &&
              (forall i | 0 <= i < a :: IsSpace(s[i])) &&
              (forall i | b <= i < |s| :: IsSpace(s[i]))
    ensures t == [] || (!IsSpace(t[0]) && !IsSpace(t[|t| - 1]))
  {
    var u := TrimStart(s);
    var t := TrimEnd(u);
    var a := |s| - |u|;
    assert t == s[a..a + |t|];
    t
  }

  function DigitValue(c: char): nat
    requires IsDigit(c)
  {
    c as int - '0' as int
  }

  function DigitChar(d: nat): (c: char)
    requires d < 10
    ensures IsDigit(c) && DigitValue(c) == d
  {
    ('0' as int + d) as char
  }

  /** The value of a string of decimal digits, most significant first. */
  function DigitsValue(s: string): nat
    requires AllDigits(s)
  {
    if s == [] then 0 else DigitsValue(s[..|s| - 1]) * 10 + DigitValue(s[|s| - 1])
  }

  /** The stripped text is an optional sign followed by one or more digits. */
  predicate IsNumeral(t: string)
  {
    if t != [] && (t[0] == '+' || t[0] == '-') then |t| > 1 && AllDigits(t[1..])
    else t != [] && AllDigits(t)
  }

  /** The value of text already stripped of whitespace: None unless it is a numeral. */
  function NumeralValue(t: string): (r: Option<int>)
    ensures r.Some? <==> IsNumeral(t)
  {
    if !IsNumeral(t) then None
    else if t[0] == '-' then Some(-(DigitsValue(t[1..]) as int))
    else if t[0] == '+' then Some(DigitsValue(t[1..]))
    else Some(DigitsValue(t))
  }

  /** int(s) for a base-10 string: None where Python raises ValueError. */
  function ParseInt(s: string): (r: Option<int>)
    ensures r.Some? <==> IsNumeral(Strip(s))
  {
    NumeralValue(Strip(s))
  }

  /** TrimStart cuts nothing from the first character that is not whitespace on. */
  lemma TrimStartKeeps(s: string, i: nat)
    requires i < |s| && !IsSpace(s[i])
    ensures |s| - |TrimStart(s)| <= i
  {
  }

  /** TrimEnd cuts nothing up to the last character that is not whitespace. */
  lemma TrimEndKeeps(s: string, i: nat)
    requires i < |s| && !IsSpace(s[i])
    ensures i < |TrimEnd(s)|
  {
  }

  /** A character that is not whitespace survives both trims, at the returned index. */
  lemma TrimsKeep(s: string, i: nat) returns (j: nat)
    requires i < |s| && !IsSpace(s[i])
    ensures j < |TrimEnd(TrimStart(s))| && TrimEnd(TrimStart(s))[j] == s[i]
  {
    var u := TrimStart(s);
    var t := TrimEnd(u);
    var a := |s| - |u|;
    TrimStartKeeps(s, i);
    j := i - a;
    assert u[j] == s[i];
    TrimEndKeeps(u, j);
    assert t[j] == s[i];
  }

  /** Every character of a numeral is a digit or a sign. */
  lemma NumeralChar(t: string, j: nat)
    requires j < |t|
    ensures IsNumeral(t) ==> IsDigit(t[j]) || t[j] == '+' || t[j] == '-'
  {
    if j > 0 && |t| > 1 {
      assert t[1..][j - 1] == t[j];
    }
  }

  /** Any character that is not an ASCII digit, a sign or whitespace makes ParseInt
      fail: a message id such as "abc" or "12x" is rejected. (Python's int() also
      accepts underscores between digits and non-ASCII digits; the model does not.) */
  lemma ParseRejectsNonNumeric(s: string, i: int)
    requires 0 <= i < |s|
    requires !IsDigit(s[i]) && !IsSpace(s[i]) && s[i] != '+' && s[i] != '-'
    ensures ParseInt(s) == None
  {
    var j := TrimsKeep(s, i);
    NumeralChar(TrimEnd(TrimStart(s)), j);
  }

  /** Decimal rendering of a natural number, without leading zeros. */
  function ShowNat(n: nat): (s: string)
    ensures s != [] && AllDigits(s)
    ensures DigitsValue(s) == n
    ensures |s| == 1 || s[0] != '0'
  {
    if n < 10 then [DigitChar(n)]
    else
      var s := ShowNat(n / 10) + [DigitChar(n % 10)];
      assert s[..|s| - 1] == ShowNat(n / 10);
      s
  }

  /** Decimal rendering of an integer, with a leading '-' when negative (str(i)). */
  function ShowInt(i: int): (s: string)
    ensures s != [] && !IsSpace(s[0]) && !IsSpace(s[|s| - 1])
  {
    if i < 0 then "-" + ShowNat(-i) else ShowNat(i)
  }

  /** Text without surrounding whitespace is left alone by Strip. */
  lemma StripUnpadded(s: string)
    requires s != [] && !IsSpace(s[0]) && !IsSpace(s[|s| - 1])
    ensures Strip(s) == s
  {
    assert TrimStart(s) == s;
    assert TrimEnd(s) == s;
  }

  /** Round trip: int(str(i)) == i for every integer, so every id the platform
      displays is accepted back as a message-id argument. */
  lemma ParseShowInt(i: int)
    ensures ParseInt(ShowInt(i)) == Some(i)
  {
    var s := ShowInt(i);
    StripUnpadded(s);
    if i < 0 {
      assert s[1..] == ShowNat(-i);
    }
  }

  /** TrimStart stops at the first character that is not whitespace. */
  lemma {:induction false} TrimStartAt(u: string, lo: nat)
    requires lo <= |u|
    requires forall k | 0 <= k < lo :: IsSpace(u[k])
    requires lo < |u| ==> !IsSpace(u[lo])
    ensures TrimStart(u) == u[lo..]
    decreases lo
  {
    if lo > 0 {
      var v := u[1..];
      forall k | 0 <= k < lo - 1 ensures IsSpace(v[k]) {
        assert v[k] == u[k + 1];
      }
      if lo < |u| {
        assert v[lo - 1] == u[lo];
      }
      TrimStartAt(v, lo - 1);
      assert v[lo - 1..] == u[lo..];
    }
  }

  /** TrimEnd stops at the last character that is not whitespace. */
  lemma {:induction false} TrimEndAt(v: string, n: nat)
    requires n <= |v|
    requires forall k | n <= k < |v| :: IsSpace(v[k])
    requires 0 < n ==> !IsSpace(v[n - 1])
    ensures TrimEnd(v) == v[..n]
    decreases |v| - n
  {
    if n < |v| {
      var w := v[..|v| - 1];
      forall k | n <= k < |w| ensures IsSpace(w[k]) {
        assert w[k] == v[k];
      }
      if 0 < n {
        assert w[n - 1] == v[n - 1];
      }
      TrimEndAt(w, n);
      assert w[..n] == v[..n];
    }
  }

  /** TrimEnd of a suffix u[lo..] stops at the last character that is not whitespace. */
  lemma TrimEndOfSuffix(u: string, lo: nat, hi: nat)
    requires lo < hi <= |u|
    requires forall k | hi <= k < |u| :: IsSpace(u[k])
    requires !IsSpace(u[hi - 1])
    ensures TrimEnd(u[lo..]) == u[lo..hi]
  {
    var v := u[lo..];
    forall k | hi - lo <= k < |v| ensures IsSpace(v[k]) {
      assert v[k] == u[lo + k];
    }
    var n := hi - lo;
    assert v[n - 1] == u[lo + (n - 1)];
    TrimEndAt(v, n);
    assert v[..n] == u[lo..hi];
  }

  /** Strip keeps exactly the slice between whitespace runs: when everything before
      lo and from hi on is whitespace and u[lo], u[hi - 1] are not, Strip(u) is
      u[lo..hi]. */
  lemma StripSlice(u: string, lo: nat, hi: nat)
    requires lo < hi <= |u|
    requires forall k | 0 <= k < lo :: IsSpace(u[k])
    requires forall k | hi <= k < |u| :: IsSpace(u[k])
    requires !IsSpace(u[lo]) && !IsSpace(u[hi - 1])
    ensures Strip(u) == u[lo..hi]
  {
    TrimStartAt(u, lo);
    TrimEndOfSuffix(u, lo, hi);
  }

  /** Whitespace around a numeral is ignored: when u is u[lo..hi] with whitespace
      before and after, and u[lo..hi] neither starts nor ends with whitespace,
      int(u) == int(u[lo..hi]); so int(" 123 ") == int("123"). */
  lemma ParsePadded(u: string, lo: nat, hi: nat)
    requires lo < hi <= |u|
    requires forall k | 0 <= k < lo :: IsSpace(u[k])
    requires forall k | hi <= k < |u| :: IsSpace(u[k])
    requires !IsSpace(u[lo]) && !IsSpace(u[hi - 1])
    ensures ParseInt(u) == ParseInt(u[lo..hi])
  {
    StripSlice(u, lo, hi);
    StripUnpadded(u[lo..hi]);
  }

  /** Every character of z is '0'. */
  predicate AllZeros(z: string)
  {
    forall i | 0 <= i < |z| :: z[i] == '0'
  }

  /** A string of zeros has value 0. */
  lemma {:induction false} ZerosValue(z: string)
    requires AllZeros(z)
    ensures AllDigits(z) && DigitsValue(z) == 0
  {
    if z != [] {
      ZerosValue(z[..|z| - 1]);
    }
  }

  /** Leading zeros do not change the value of a digit string. */
  lemma {:induction false} LeadingZerosValue(z: string, d: string)
    requires AllZeros(z) && AllDigits(d)
    ensures AllDigits(z + d) && DigitsValue(z + d) == DigitsValue(d)
  {
    ZerosValue(z);
    if d == [] {
      assert z + d == z;
    } else {
      var zd := z + d;
      assert zd[..|zd| - 1] == z + d[..|d| - 1];
      assert zd[|zd| - 1] == d[|d| - 1];
      LeadingZerosValue(z, d[..|d| - 1]);
    }
  }

  /** An unsigned digit string parses to its decimal value; with LeadingZerosValue,
      "0123" parses to 123. */
  lemma ParseDigits(d: string)
    requires d != [] && AllDigits(d)
    ensures ParseInt(d) == Some(DigitsValue(d) as int)
  {
    assert IsDigit(d[0]) && IsDigit(d[|d| - 1]);
    StripUnpadded(d);
  }

  /** A signed digit string parses to its value, negated after '-': "+123" parses
      to 123 and "-0123" to -123. */
  lemma ParseSignedDigits(c: char, d: string)
    requires (c == '+' || c == '-') && d != [] && AllDigits(d)
    ensures ParseInt([c] + d) ==
            Some(if c == '-' then -(DigitsValue(d) as int) else DigitsValue(d) as int)
  {
    var s := [c] + d;
    assert IsDigit(d[|d| - 1]) && s[|s| - 1] == d[|d| - 1];
    StripUnpadded(s);
    assert s[1..] == d;
  }

  function LowerChar(c: char): char
  {
    if 'A' <= c <= 'Z' then (c as int + 32) as char else c
  }

  /** str.lower() on ASCII letters; every other character is kept. Compared against
      "add" or "remove" this agrees with Python's full Unicode lower(): the only
      non-ASCII characters whose lower case contains ASCII letters are U+0130 and
      U+212A, whose lower cases ("i" + U+0307, "k") occur in neither word. */
  function AsciiLower(s: string): (t: string)
    ensures |t| == |s|
    ensures forall i | 0 <= i < |s| :: t[i] == LowerChar(s[i])
  {
    if s == [] then [] else [LowerChar(s[0])] + AsciiLower(s[1..])
  }

  /** p occurs in s at position i. */
  predicate OccursAt(s: string, p: string, i: int)
  {
    0 <= i && i + |p| <= |s| && s[i..i + |p|] == p
  }

  /** p occurs nowhere in s. */
  predicate Free(s: string, p: string)
  {
    forall i | 0 <= i <= |s| - |p| :: !OccursAt(s, p, i)
  }

  /** Dropping the first character keeps a string free of p. */
  lemma FreeTail(s: string, p: string)
    requires s != []
    ensures Free(s, p) ==> Free(s[1..], p)
  {
    if Free(s, p) {
      forall i | 0 <= i <= |s[1..]| - |p|
        ensures !OccursAt(s[1..], p, i)
      {
        assert !OccursAt(s, p, i + 1);
        assert s[1..][i..i + |p|] == s[i + 1..i + 1 + |p|];
      }
    }
  }

  /** s.replace(p, r): every non-overlapping occurrence of p, scanned left to right,
      is replaced by r. Text too short to hold p is returned unchanged; the lemmas
      below characterize the rest. */
  function Replace(s: string, p: string, r: string): (t: string)
    requires p != []
    ensures |s| < |p| ==> t == s
    decreases |s|
  {
    if |p| <= |s| && s[..|p|] == p then r + Replace(s[|p|..], p, r)
    else if s == [] then []
    else
      assert s == [s[0]] + s[1..];
      [s[0]] + Replace(s[1..], p, r)
  }

  /** A string without the placeholder is returned unchanged. */
  lemma {:induction false} ReplaceFree(s: string, p: string, r: string)
    requires p != [] && Free(s, p)
    ensures Replace(s, p, r) == s
  {
    if s != [] {
      assert !OccursAt(s, p, 0);
      FreeTail(s, p);
      ReplaceFree(s[1..], p, r);
      assert s == [s[0]] + s[1..];
    }
  }

  /** No character of r is a character of p. */
  predicate Disjoint(r: string, p: string)
  {
    forall k | 0 <= k < |r| :: r[k] !in p
  }

  /** One of the first n characters of t is not a character of p. */
  predicate ForeignBefore(t: string, p: string, n: nat)
    requires n <= |t|
  {
    exists k | 0 <= k < n :: t[k] !in p
  }

  /** Putting the same character in front of the input and the output keeps a
      prefix either copied or holding a character outside p. */
  lemma ConsKept(c: char, s: string, t: string, p: string, n: nat)
    requires 1 <= n <= |t| + 1
    requires ForeignBefore(t, p, n - 1) || (n - 1 <= |s| && t[..n - 1] == s[..n - 1])
    ensures ForeignBefore([c] + t, p, n) || (n <= |[c] + s| && ([c] + t)[..n] == ([c] + s)[..n])
  {
    if ForeignBefore(t, p, n - 1) {
      var k :| 0 <= k < n - 1 && t[k] !in p;
      assert ([c] + t)[k + 1] == t[k];
    } else {
      assert ([c] + t)[..n] == [c] + t[..n - 1];
      assert ([c] + s)[..n] == [c] + s[..n - 1];
    }
  }

  /** A prefix of the output is either copied unchanged from the input or holds a
      character outside p: replacement text never consists of characters of p. */
  lemma {:induction false} ReplacePrefixKept(s: string, p: string, r: string, n: nat)
    requires p != [] && r != [] && Disjoint(r, p)
    requires n <= |Replace(s, p, r)|
    ensures ForeignBefore(Replace(s, p, r), p, n) || (n <= |s| && Replace(s, p, r)[..n] == s[..n])
    decreases |s|
  {
    var t := Replace(s, p, r);
    if n == 0 {
    } else if |p| <= |s| && s[..|p|] == p {
      assert t[0] == r[0] && r[0] !in p;
    } else if s == [] {
    } else {
      var t' := Replace(s[1..], p, r);
      assert t == [s[0]] + t';
      ReplacePrefixKept(s[1..], p, r, n - 1);
      ConsKept(s[0], s[1..], t', p, n);
      assert s == [s[0]] + s[1..];
    }
  }

  /** Text free of p stays free of p behind a prefix that shares no character with p. */
  lemma FreeAfterForeign(r: string, t: string, p: string)
    requires p != [] && Disjoint(r, p) && Free(t, p)
    ensures Free(r + t, p)
  {
    var u := r + t;
    forall i | 0 <= i <= |u| - |p| ensures !OccursAt(u, p, i) {
      if i < |r| {
        assert u[i..i + |p|][0] == r[i] && r[i] !in p && p[0] in p;
      } else {
        assert !OccursAt(t, p, i - |r|);
        assert u[i..i + |p|] == t[i - |r|..i - |r| + |p|];
      }
    }
  }

  /** Text free of p stays free of p behind one character, unless p starts there. */
  lemma FreeAfterChar(c: char, t: string, p: string)
    requires Free(t, p) && !OccursAt([c] + t, p, 0)
    ensures Free([c] + t, p)
  {
    var u := [c] + t;
    forall i | 1 <= i <= |u| - |p| ensures !OccursAt(u, p, i) {
      assert !OccursAt(t, p, i - 1);
      assert u[i..i + |p|] == t[i - 1..i - 1 + |p|];
    }
  }

  /** Every occurrence of p is replaced: when the replacement text shares no
      character with p, the output contains p nowhere. */
  lemma {:induction false} ReplaceLeavesNoOccurrence(s: string, p: string, r: string)
    requires p != [] && r != [] && Disjoint(r, p)
    ensures Free(Replace(s, p, r), p)
    decreases |s|
  {
    var t := Replace(s, p, r);
    if |p| <= |s| && s[..|p|] == p {
      var t' := Replace(s[|p|..], p, r);
      ReplaceLeavesNoOccurrence(s[|p|..], p, r);
      assert t == r + t';
      FreeAfterForeign(r, t', p);
    } else if s == [] {
    } else {
      var t' := Replace(s[1..], p, r);
      ReplaceLeavesNoOccurrence(s[1..], p, r);
      assert t == [s[0]] + t';
      if |p| <= |t| {
        ReplacePrefixKept(s[1..], p, r, |p| - 1);
        ConsKept(s[0], s[1..], t', p, |p|);
        assert s == [s[0]] + s[1..];
        if ForeignBefore(t, p, |p|) {
          var k :| 0 <= k < |p| && t[k] !in p;
          assert t[..|p|][k] == t[k];
        }
      }
      FreeAfterChar(s[0], t', p);
    }
  }

  /** A leading character that cannot start p is copied. */
  lemma ReplaceSkipsChar(c: char, s: string, p: string, r: string)
    requires p != [] && c != p[0]
    ensures Replace([c] + s, p, r) == [c] + Replace(s, p, r)
  {
    var t := [c] + s;
    assert t[0] == c;
    assert t[1..] == s;
  }

  /** A leading occurrence of p is replaced by r. */
  lemma ReplaceMatchesHead(s: string, p: string, r: string)
    requires p != []
    ensures Replace(p + s, p, r) == r + Replace(s, p, r)
  {
    var t := p + s;
    assert t[..|p|] == p;
    assert t[|p|..] == s;
  }

  /** A prefix with no character that could start p is copied as is. */
  lemma {:induction false} ReplaceSkipsPrefix(a: string, rest: string, p: string, r: string)
    requires p != []
    requires forall k | 0 <= k < |a| :: a[k] != p[0]
    ensures Replace(a + rest, p, r) == a + Replace(rest, p, r)
  {
    if a == [] {
      assert a + rest == rest;
    } else {
      var tail := a[1..] + rest;
      var out := Replace(rest, p, r);
      assert a + rest == [a[0]] + tail;
      ReplaceSkipsChar(a[0], tail, p, r);
      ReplaceSkipsPrefix(a[1..], rest, p, r);
      assert Replace(tail, p, r) == a[1..] + out;
      assert [a[0]] + (a[1..] + out) == a + out by {
        assert a == [a[0]] + a[1..];
      }
    }
  }

  /** A string with no character that could start p is returned unchanged. */
  lemma {:induction false} ReplaceNoHead(b: string, p: string, r: string)
    requires p != []
    requires forall k | 0 <= k < |b| :: b[k] != p[0]
    ensures Replace(b, p, r) == b
  {
    if b != [] {
      assert b[..1] + b[1..] == b;
      ReplaceSkipsChar(b[0], b[1..], p, r);
      ReplaceNoHead(b[1..], p, r);
    }
  }

  /** A template holding p once, with no character that could start p around it,
      renders to the text before, r, and the text after. */
  lemma ReplaceSingle(a: string, b: string, p: string, r: string)
    requires p != []
    requires forall k | 0 <= k < |a| :: a[k] != p[0]
    requires forall k | 0 <= k < |b| :: b[k] != p[0]
    ensures Replace(a + (p + b), p, r) == a + (r + b)
  {
    ReplaceSkipsPrefix(a, p + b, p, r);
    ReplaceMatchesHead(b, p, r);
    ReplaceNoHead(b, p, r);
  }



  /** Text before the first occurrence is copied as is: if p starts nowhere
      inside a, then (a + b).replace(p, r) == a + b.replace(p, r). */
  lemma {:induction false} ReplaceCopiesPrefix(a: string, b: string, p: string, r: string)
    requires p != []
    requires forall i | 0 <= i < |a| :: !OccursAt(a + b, p, i)
    ensures Replace(a + b, p, r) == a + Replace(b, p, r)
  {
    if a != [] {
      var s := a + b;
      assert !OccursAt(s, p, 0);
      assert s[1..] == a[1..] + b;
      forall i | 0 <= i < |a[1..]| ensures !OccursAt(a[1..] + b, p, i) {
        assert !OccursAt(s, p, i + 1);
        if i + |p| <= |s[1..]| {
          assert s[1..][i..i + |p|] == s[i + 1..i + 1 + |p|];
        }
      }
      ReplaceCopiesPrefix(a[1..], b, p, r);
      assert a == [a[0]] + a[1..];
    } else {
      assert a + b == b;
    }
  }
}
