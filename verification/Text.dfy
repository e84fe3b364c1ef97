/** Case folding, substring tests and the string order Python's `lower`, `in` and `<` give (ASCII). */
module Text {
  function LowerChar(c: char): char {
    if 'A' <= c <= 'Z' then (c as int + 32) as char else c
  }

  function Lower(s: string): string {
    seq(|s|, i requires 0 <= i < |s| => LowerChar(s[i]))
  }

  /** `needle in hay`. */
  predicate Contains(hay: string, needle: string) {
    exists i :: 0 <= i <= |hay| && needle <= hay[i..]
  }

  /** `a <= b` on strings: lexicographic by character code. */
  predicate StringLeq(a: string, b: string) {
    if a == [] then true
    else if b == [] then false
    else if a[0] != b[0] then a[0] < b[0]
    else StringLeq(a[1..], b[1..])
  }

  lemma {:induction false} StringLeqTotal(a: string, b: string)
    ensures StringLeq(a, b) || StringLeq(b, a)
  {
    if a != [] && b != [] && a[0] == b[0] {
      StringLeqTotal(a[1..], b[1..]);
    }
  }

  lemma {:induction false} StringLeqAntisymmetric(a: string, b: string)
    requires StringLeq(a, b) && StringLeq(b, a)
    ensures a == b
  {
    if a != [] && b != [] {
      StringLeqAntisymmetric(a[1..], b[1..]);
      assert a == [a[0]] + a[1..] && b == [b[0]] + b[1..];
    }
  }

  lemma {:induction false} StringLeqTransitive(a: string, b: string, c: string)
    requires StringLeq(a, b) && StringLeq(b, c)
    ensures StringLeq(a, c)
  {
    if a != [] && b != [] && c != [] && a[0] == b[0] == c[0] {
      StringLeqTransitive(a[1..], b[1..], c[1..]);
    }
  }

  /** Exactly the ASCII capitals change, each to the letter it is the capital of. */
  lemma LowerCharExact(c: char)
    ensures LowerChar('A') == 'a' && LowerChar('M') == 'm' && LowerChar('Z') == 'z'
    ensures 'A' <= c <= 'Z' ==> 'a' <= LowerChar(c) <= 'z' && LowerChar(c) - 'a' == c - 'A'
    ensures !('A' <= c <= 'Z') ==> LowerChar(c) == c
  {
  }

  lemma LowerTwice(s: string)
    ensures Lower(Lower(s)) == Lower(s)
  {
  }

  lemma LowerConcat(a: string, b: string)
    ensures Lower(a + b) == Lower(a) + Lower(b)
  {
  }

  lemma CharInWord(text: string, word: string, i: nat, n: nat)
    requires i <= n < i + |word| && i <= |text| && word <= text[i..]
    ensures n < |text| && text[n] in word
  {
    assert text[n] == text[i..][n - i] == word[n - i];
  }

  /** A word without spaces occurs in two texts joined by a space exactly when it occurs in one of them. */
  lemma ContainsAcrossSpace(a: string, b: string, word: string)
    requires word != "" && ' ' !in word
    ensures Contains(a + " " + b, word) <==> Contains(a, word) || Contains(b, word)
  {
    var joined := a + " " + b;
    if Contains(joined, word) {
      var i :| 0 <= i <= |joined| && word <= joined[i..];
      if i + |word| <= |a| {
        assert a[i..][..|word|] == word;
        assert word <= a[i..];
      } else if i > |a| {
        var n := i - |a| - 1;
        assert b[n..][..|word|] == word;
        assert word <= b[n..];
      } else {
        CharInWord(joined, word, i, |a|);
      }
    }
    if Contains(a, word) {
      var i :| 0 <= i <= |a| && word <= a[i..];
      assert joined[i..][..|word|] == a[i..][..|word|];
      assert word <= joined[i..];
    }
    if Contains(b, word) {
      var i :| 0 <= i <= |b| && word <= b[i..];
      var n := |a| + 1 + i;
      assert joined[n..] == b[i..];
      assert word <= joined[n..];
    }
  }

  lemma SameStart(a: string, b: string, k: nat)
    requires 0 < k <= |a| && k <= |b| && a[..k] == b[..k]
    ensures a[0] == b[0]
  {
    assert a[..k][0] == b[..k][0];
  }

  /** `a <= b`: a prefix, or a smaller character at the first difference. */
  lemma {:induction false} StringLeqIff(a: string, b: string)
    ensures StringLeq(a, b) <==>
            a <= b || exists k | 0 <= k < |a| && k < |b| :: a[..k] == b[..k] && a[k] < b[k]
  {
    forall k: nat | 0 < k <= |a| && k <= |b| && a[..k] == b[..k] ensures a[0] == b[0] { SameStart(a, b, k); }
    if a == [] || b == [] {
    } else if a[0] != b[0] {
      assert a[..0] == b[..0];
    } else {
      var (x, y) := (a[1..], b[1..]);
      StringLeqIff(x, y);
      assert a == [a[0]] + x && b == [b[0]] + y;
      if k :| 0 <= k < |x| && k < |y| && x[..k] == y[..k] && x[k] < y[k] {
        var n := k + 1;
        assert a[..n] == [a[0]] + x[..k] && b[..n] == [b[0]] + y[..k];
        assert a[n] < b[n];
      }
      if k :| 0 <= k < |a| && k < |b| && a[..k] == b[..k] && a[k] < b[k] {
        var n := k - 1;
        assert x[..n] == a[..k][1..] && y[..n] == b[..k][1..];
        assert x[n] < y[n];
      }
    }
  }
}
