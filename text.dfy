/** String helpers standing in for the Python `str` operations the mod manager uses
    (`lower`, `strip`, `split`, `in`, `isdigit`, `join`, `<`). Characters are compared by
    code point; case folding and whitespace are those of ASCII. */
module Text {

  /** `str.isspace` on ASCII: space, `\t \n \v \f \r` and the separators 0x1C-0x1F. */
  predicate IsSpace(c: char) {
    c == ' ' || ('\t' <= c <= '\r') || ('\U{1C}' <= c <= '\U{1F}')
  }

  function LowerChar(c: char): char {
    if 'A' <= c <= 'Z' then (c as int + 32) as char else c
  }

  /** `str.lower()`. */
  function Lower(s: string): (r: string)
    ensures |r| == |s|
    ensures forall i :: 0 <= i < |s| ==> r[i] == LowerChar(s[i])
  {
    seq(|s|, i requires 0 <= i < |s| => LowerChar(s[i]))
  }

  /** Drops leading whitespace. */
  function TrimLeft(s: string): (r: string)
    ensures |r| <= |s| && r == s[|s| - |r|..]
    ensures r == [] || !IsSpace(r[0])
    ensures forall i :: 0 <= i < |s| - |r| ==> IsSpace(s[i])
  {
    if s != [] && IsSpace(s[0]) then TrimLeft(s[1..]) else s
  }

  /** Drops trailing whitespace. */
  function TrimRight(s: string): (r: string)
    ensures |r| <= |s| && r == s[..|r|]
    ensures r == [] || !IsSpace(r[|r| - 1])
    ensures forall i :: |r| <= i < |s| ==> IsSpace(s[i])
  {
    if s != [] && IsSpace(s[|s| - 1]) then TrimRight(s[..|s| - 1]) else s
  }

  /** `str.strip()` with no argument. */
  function Strip(s: string): (r: string)
    ensures r == [] || (!IsSpace(r[0]) && !IsSpace(r[|r| - 1]))
  {
    TrimRight(TrimLeft(s))
  }

  /** A string that `strip()` leaves alone. */
  predicate Stripped(s: string) {
    s == [] || (!IsSpace(s[0]) && !IsSpace(s[|s| - 1]))
  }

  lemma StripKeepsStripped(s: string)
    requires Stripped(s)
    ensures Strip(s) == s
  {
  }

  lemma StripIsStripped(s: string)
    ensures Stripped(Strip(s)) && Strip(Strip(s)) == Strip(s)
  {
    StripKeepsStripped(Strip(s));
  }

  /** `strip()` returns a contiguous piece of its argument. */
  lemma StripIsSlice(s: string) returns (a: nat)
    ensures a + |Strip(s)| <= |s| && s[a..a + |Strip(s)|] == Strip(s)
  {
    var t := TrimLeft(s);
    a := |s| - |t|;
    assert Strip(s) == t[..|Strip(s)|];
  }

  /** `strip()` yields the empty string exactly for all-whitespace input. */
  lemma StripEmptyIffBlank(s: string)
    ensures Strip(s) == [] <==> forall i :: 0 <= i < |s| ==> IsSpace(s[i])
  {
    if Strip(s) == [] {
      assert TrimLeft(s) == [];
    }
  }

  /** Longest prefix free of whitespace. */
  function Token(s: string): (r: string)
    ensures |r| <= |s| && r == s[..|r|]
    ensures forall i :: 0 <= i < |r| ==> !IsSpace(r[i])
    ensures |r| < |s| ==> IsSpace(s[|r|])
  {
    if s == [] || IsSpace(s[0]) then [] else [s[0]] + Token(s[1..])
  }

  /** A non-empty run of non-whitespace characters. */
  predicate IsWord(w: string) {
    w != [] && forall i :: 0 <= i < |w| ==> !IsSpace(w[i])
  }

  /** `str.split()` with no argument: maximal runs of non-whitespace. */
  function Words(s: string): (r: seq<string>)
    ensures forall k :: 0 <= k < |r| ==> IsWord(r[k])
    decreases |s|
  {
    var t := TrimLeft(s);
    if t == [] then []
    else
      var w := Token(t);
      assert IsWord(w) by { assert !IsSpace(t[0]); }
      [w] + Words(t[|w|..])
  }

  /** A whitespace-free, non-empty string is one word. */
  lemma WordsOfOneWord(s: string)
    requires s != [] && forall i :: 0 <= i < |s| ==> !IsSpace(s[i])
    ensures Words(s) == [s]
  {
    assert TrimLeft(s) == s;
    TokenOfWord(s);
    assert s[|s|..] == [];
  }

  /** `split()` yields no words exactly for all-whitespace input. */
  lemma WordsEmptyIffBlank(s: string)
    ensures Words(s) == [] <==> forall i :: 0 <= i < |s| ==> IsSpace(s[i])
  {
    var t := TrimLeft(s);
    if t != [] {
      assert s[|s| - |t|] == t[0];
    }
  }

  /** The token before a whitespace character does not depend on what follows it. */
  lemma {:induction false} TokenBeforeSpace(a: string, c: char, b: string)
    requires IsSpace(c)
    ensures Token(a + [c] + b) == Token(a)
  {
    if a != [] && !IsSpace(a[0]) {
      assert (a + [c] + b)[1..] == a[1..] + [c] + b;
      TokenBeforeSpace(a[1..], c, b);
    }
  }

  /** Leading whitespace does not change the words. */
  lemma WordsAfterSpace(s: string)
    requires s != [] && IsSpace(s[0])
    ensures Words(s) == Words(s[1..])
  {
  }

  lemma DropBeforeSeparator(a: string, c: char, b: string, n: nat)
    requires n <= |a|
    ensures (a + [c] + b)[n..] == a[n..] + [c] + b
  {
  }

  /** `split()` cuts at every whitespace character: the words of `a + c + b` are those of
      `a` followed by those of `b`. */
  lemma {:induction false} WordsSplitAtSpace(a: string, c: char, b: string)
    requires IsSpace(c)
    ensures Words(a + [c] + b) == Words(a) + Words(b)
    decreases |a|
  {
    var s := a + [c] + b;
    if a == [] {
      DropBeforeSeparator(a, c, b, 0);
      WordsAfterSpace(s);
      DropBeforeSeparator([c], c, b, 1);
    } else if IsSpace(a[0]) {
      WordsAfterSpace(s);
      WordsAfterSpace(a);
      DropBeforeSeparator(a, c, b, 1);
      WordsSplitAtSpace(a[1..], c, b);
    } else {
      WordsOfTokenStart(a, c, b);
    }
  }

  /** The case of `WordsSplitAtSpace` where `a` starts with a word. */
  lemma {:induction false} WordsOfTokenStart(a: string, c: char, b: string)
    requires IsSpace(c) && a != [] && !IsSpace(a[0])
    ensures Words(a + [c] + b) == Words(a) + Words(b)
    decreases |a|, 0
  {
    var s := a + [c] + b;
    assert s[0] == a[0];
    assert TrimLeft(s) == s && TrimLeft(a) == a;
    TokenBeforeSpace(a, c, b);
    var w := Token(a);
    assert |w| >= 1 by { assert !IsSpace(a[0]); }
    assert Words(s) == [w] + Words(s[|w|..]);
    assert Words(a) == [w] + Words(a[|w|..]);
    var x := a[|w|..];
    DropBeforeSeparator(a, c, b, |w|);
    assert s[|w|..] == x + [c] + b;
    WordsSplitAtSpace(x, c, b);
    var wx, wb := Words(x), Words(b);
    assert Words(s) == [w] + (wx + wb);
    assert Words(a) + wb == [w] + wx + wb;
    ConcatAssociative([w], wx, wb);
  }

  lemma ConcatAssociative<T>(x: seq<T>, y: seq<T>, z: seq<T>)
    ensures x + (y + z) == x + y + z
  {
  }

  lemma TokenOfWord(s: string)
    requires forall i :: 0 <= i < |s| ==> !IsSpace(s[i])
    ensures Token(s) == s
  {
  }

  /** `s.split(sep)`: the pieces between occurrences of `sep`, empty pieces kept. */
  function SplitOn(s: string, sep: char): (r: seq<string>)
    ensures |r| >= 1
    ensures forall k :: 0 <= k < |r| ==> sep !in r[k]
  {
    if s == [] then [[]]
    else
      var rest := SplitOn(s[1..], sep);
      if s[0] == sep then [[]] + rest else [[s[0]] + rest[0]] + rest[1..]
  }

  /** `sep.join(parts)`. */
  function Join(parts: seq<string>, sep: string): string {
    if parts == [] then []
    else if |parts| == 1 then parts[0]
    else parts[0] + sep + Join(parts[1..], sep)
  }

  /** Splitting and joining back on the same separator gives the original string. */
  lemma {:induction false} JoinSplitOn(s: string, sep: char)
    ensures Join(SplitOn(s, sep), [sep]) == s
  {
    if s != [] {
      var rest := SplitOn(s[1..], sep);
      JoinSplitOn(s[1..], sep);
      if s[0] == sep {
        assert SplitOn(s, sep) == [[]] + rest;
        assert ([[]] + rest)[1..] == rest;
        assert s == [] + [sep] + s[1..];
      } else {
        var r := [[s[0]] + rest[0]] + rest[1..];
        assert SplitOn(s, sep) == r;
        if |rest| == 1 {
          assert Join(rest, [sep]) == rest[0];
        } else {
          assert Join(rest, [sep]) == rest[0] + [sep] + Join(rest[1..], [sep]);
          assert r[1..] == rest[1..];
        }
      }
    }
  }

  /** A string made only of separators splits into empty pieces. */
  lemma {:induction false} SplitOnOnlySeparators(s: string, sep: char)
    requires forall i :: 0 <= i < |s| ==> s[i] == sep
    ensures forall k :: 0 <= k < |SplitOn(s, sep)| ==> SplitOn(s, sep)[k] == []
  {
    if s != [] {
      SplitOnOnlySeparators(s[1..], sep);
    }
  }

  /** A string without the separator is one piece. */
  lemma {:induction false} SplitOnWithoutSeparator(s: string, sep: char)
    requires sep !in s
    ensures SplitOn(s, sep) == [s]
  {
    if s != [] {
      SplitOnWithoutSeparator(s[1..], sep);
      assert [s[0]] + s[1..] == s;
    }
  }

  /** Python's `needle in hay` on strings. */
  predicate Contains(hay: string, needle: string) {
    needle <= hay || (hay != [] && Contains(hay[1..], needle))
  }

  lemma ContainsEmpty(hay: string)
    ensures Contains(hay, [])
  {
  }

  lemma ContainsSelf(s: string)
    ensures Contains(s, s)
  {
  }

  /** A string contains its own suffix. */
  lemma {:induction false} ContainsSuffix(p: string, x: string)
    ensures Contains(p + x, x)
  {
    if p != [] {
      ContainsSuffix(p[1..], x);
      assert (p + x)[1..] == p[1..] + x;
    }
  }

  /** A string contains whatever a slice of it contains. */
  lemma {:induction false} ContainsInSlice(s: string, a: nat, b: nat, x: string)
    requires a <= b <= |s|
    requires Contains(s[a..b], x)
    ensures Contains(s, x)
    decreases b - a
  {
    if x <= s[a..b] {
      ContainsFrom(s, a, x);
    } else {
      assert s[a..b][1..] == s[a + 1..b];
      ContainsInSlice(s, a + 1, b, x);
    }
  }

  /** Whatever the trimmed string contains, the string contains. */
  lemma ContainsStripped(s: string, x: string)
    requires Contains(Strip(s), x)
    ensures Contains(s, x)
  {
    var a := StripIsSlice(s);
    ContainsInSlice(s, a, a + |Strip(s)|, x);
  }

  lemma {:induction false} ContainsFrom(s: string, a: nat, x: string)
    requires a <= |s| && x <= s[a..]
    ensures Contains(s, x)
  {
    if a > 0 {
      assert s[1..][a - 1..] == s[a..];
      ContainsFrom(s[1..], a - 1, x);
    } else {
      assert s[0..] == s;
    }
  }

  /** `str.isdigit()` on ASCII digits (false for the empty string, as in Python). */
  predicate IsDigits(s: string) {
    s != [] && forall i :: 0 <= i < |s| ==> '0' <= s[i] <= '9'
  }

  /** No element occurs twice. */
  predicate Distinct(s: seq<string>) {
    forall i, j :: 0 <= i < j < |s| ==> s[i] != s[j]
  }

  /** Python's `list.index(x)`: the first position holding `x`. */
  function IndexOf<T(==)>(s: seq<T>, x: T): (k: nat)
    requires x in s
    ensures k < |s| && s[k] == x
    ensures forall j :: 0 <= j < k ==> s[j] != x
  {
    if s[0] == x then 0 else 1 + IndexOf(s[1..], x)
  }

  /** Python's `a < b` on strings: lexicographic by code point, a proper prefix first. */
  predicate Below(a: string, b: string) {
    if a == [] then b != []
    else b != [] && (a[0] < b[0] || (a[0] == b[0] && Below(a[1..], b[1..])))
  }

  lemma BelowIrreflexive(a: string)
    ensures !Below(a, a)
  {
  }

  lemma BelowTransitive(a: string, b: string, c: string)
    requires Below(a, b) && Below(b, c)
    ensures Below(a, c)
  {
    if a != [] && b != [] && c != [] && a[0] == b[0] == c[0] {
      BelowTransitive(a[1..], b[1..], c[1..]);
    }
  }

  lemma BelowTotal(a: string, b: string)
    ensures a == b || Below(a, b) || Below(b, a)
  {
    if a != [] && b != [] && a[0] == b[0] {
      BelowTotal(a[1..], b[1..]);
      if a[1..] == b[1..] {
        assert a == [a[0]] + a[1..] && b == [b[0]] + b[1..];
      }
    }
  }

  lemma BelowAsymmetric(a: string, b: string)
    requires Below(a, b)
    ensures !Below(b, a)
  {
    if Below(b, a) {
      BelowTransitive(a, b, a);
      BelowIrreflexive(a);
    }
  }

  /** Strictly ascending in Python's string order, hence also duplicate-free. */
  predicate StrictlySorted(s: seq<string>) {
    forall i, j :: 0 <= i < j < |s| ==> Below(s[i], s[j])
  }
}
