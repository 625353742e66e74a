/**
  Fully-qualified protobuf symbol names: their order, their parent relation and the
  facts about the two that make a one-probe prefix lookup possible.

  A name is a string of bytes.  `std::string` compares bytes as unsigned values, which is
  the order Dafny gives to the characters 0..255; nothing below needs the upper bound.
 */
module SymbolNames {

  /** `a <= b` in the order of `std::map<string, Value>`. */
  predicate LessOrEqual(a: string, b: string) {
    || a == []
    || (b != [] && (a[0] < b[0] || (a[0] == b[0] && LessOrEqual(a[1..], b[1..]))))
  }

  predicate Less(a: string, b: string) {
    LessOrEqual(a, b) && a != b
  }

  predicate IsSymbolChar(c: char) {
    'a' <= c <= 'z' || 'A' <= c <= 'Z' || '0' <= c <= '9' || c == '_' || c == '.'
  }

  /** True when every character is alphanumeric, an underscore or a period. */
  predicate ValidateSymbolName(name: string) {
    forall i :: 0 <= i < |name| ==> IsSymbolChar(name[i])
  }

  const LOWER: string := "abcdefghijklmnopqrstuvwxyz"
  const UPPER: string := "ABCDEFGHIJKLMNOPQRSTUVWXYZ"
  const DIGITS: string := "0123456789"

  /** Alphanumerics, the underscore and the period. */
  const ALPHABET: string := LOWER + UPPER + DIGITS + "_."

  lemma LetterAt(i: nat)
    ensures i < 26 ==> LOWER[i] as int == 97 + i
    ensures i < 26 ==> UPPER[i] as int == 65 + i
    ensures i < 10 ==> DIGITS[i] as int == 48 + i
  {
  }

  lemma LowerAre(c: char)
    ensures c in LOWER <==> 97 <= c as int <= 122
  {
    if c in LOWER {
      var i: nat :| i < 26 && LOWER[i] == c;
      LetterAt(i);
    } else if 97 <= c as int <= 122 {
      LetterAt(c as int - 97);
    }
  }

  lemma UpperAre(c: char)
    ensures c in UPPER <==> 65 <= c as int <= 90
  {
    if c in UPPER {
      var i: nat :| i < 26 && UPPER[i] == c;
      LetterAt(i);
    } else if 65 <= c as int <= 90 {
      LetterAt(c as int - 65);
    }
  }

  lemma DigitsAre(c: char)
    ensures c in DIGITS <==> 48 <= c as int <= 57
  {
    if c in DIGITS {
      var i: nat :| i < 10 && DIGITS[i] == c;
      LetterAt(i);
    } else if 48 <= c as int <= 57 {
      LetterAt(c as int - 48);
    }
  }

  lemma SymbolCharsAre(c: char)
    ensures IsSymbolChar(c) <==> c in ALPHABET
  {
    LowerAre(c);
    UpperAre(c);
    DigitsAre(c);
    assert c in ALPHABET <==> c in LOWER || c in UPPER || c in DIGITS || c in "_.";
  }

  /** A name is valid exactly if it is a word over the alphabet; the empty one is. */
  lemma ValidNamesAre(name: string)
    ensures ValidateSymbolName(name) <==> forall c :: c in name ==> c in ALPHABET
  {
    forall c: char
      ensures IsSymbolChar(c) <==> c in ALPHABET
    {
      SymbolCharsAre(c);
    }
    if ValidateSymbolName(name) {
      forall c | c in name
        ensures c in ALPHABET
      {
        var i :| 0 <= i < |name| && name[i] == c;
      }
    }
  }

  /** Equal, or `super` is a parent of `sub`: "foo.bar" is one of "foo.bar.baz" but not of "foo.barbaz". */
  predicate IsSubSymbol(sub: string, super: string) {
    || sub == super
    || (|super| < |sub| && sub[..|super|] == super && sub[|super|] == '.')
  }

  /** A parent is what is left of a name when it is cut at a period. */
  lemma SubSymbolsAre(sub: string, super: string)
    ensures IsSubSymbol(sub, super) <==> sub == super || exists rest :: sub == super + "." + rest
  {
    if sub != super && IsSubSymbol(sub, super) {
      assert sub == super + "." + sub[|super| + 1..];
    }
    if rest :| sub == super + "." + rest {
      assert sub[..|super|] == super && sub[|super|] == '.';
    }
  }

  /** The two names cannot live in one index together. */
  predicate Comparable(a: string, b: string) {
    IsSubSymbol(a, b) || IsSubSymbol(b, a)
  }

  // ----- the order is that of the first difference, and total

  /** Up to position `k` the strings agree, and there `a` ends or has the lesser character. */
  predicate LessAt(a: string, b: string, k: nat) {
    k <= |a| && k < |b| && a[..k] == b[..k] && (k == |a| || a[k] < b[k])
  }

  lemma {:induction false} FirstDifference(a: string, b: string) returns (k: nat)
    requires Less(a, b)
    ensures LessAt(a, b, k)
  {
    k := 0;
    if a != [] && a[0] == b[0] {
      assert a == [a[0]] + a[1..] && b == [b[0]] + b[1..];
      k := FirstDifference(a[1..], b[1..]);
      assert a[..k + 1] == [a[0]] + a[1..][..k] && b[..k + 1] == [b[0]] + b[1..][..k];
      k := k + 1;
    }
  }

  lemma {:induction false} LessFrom(a: string, b: string, k: nat)
    requires LessAt(a, b, k)
    ensures Less(a, b)
    decreases k
  {
    if k > 0 {
      assert a[0] == a[..k][0] == b[..k][0] == b[0];
      assert a[1..][..k - 1] == a[..k][1..] && b[1..][..k - 1] == b[..k][1..];
      LessFrom(a[1..], b[1..], k - 1);
    }
  }

  lemma LessIffFirstDifference(a: string, b: string)
    ensures Less(a, b) <==> exists k: nat :: LessAt(a, b, k)
  {
    if Less(a, b) {
      var k := FirstDifference(a, b);
    }
    if k: nat :| LessAt(a, b, k) {
      LessFrom(a, b, k);
    }
  }

  lemma {:induction false} Reflexive(a: string)
    ensures LessOrEqual(a, a)
  {
    if a != [] {
      Reflexive(a[1..]);
    }
  }

  lemma {:induction false} Total(a: string, b: string)
    ensures LessOrEqual(a, b) || LessOrEqual(b, a)
  {
    if a != [] && b != [] {
      Total(a[1..], b[1..]);
    }
  }

  lemma {:induction false} Antisymmetric(a: string, b: string)
    requires LessOrEqual(a, b) && LessOrEqual(b, a)
    ensures a == b
  {
    if a != [] && b != [] {
      Antisymmetric(a[1..], b[1..]);
      assert a == [a[0]] + a[1..] && b == [b[0]] + b[1..];
    }
  }

  lemma {:induction false} Transitive(a: string, b: string, c: string)
    requires LessOrEqual(a, b) && LessOrEqual(b, c)
    ensures LessOrEqual(a, c)
  {
    if a != [] && a[0] == b[0] == c[0] {
      Transitive(a[1..], b[1..], c[1..]);
    }
  }

  lemma {:induction false} LessTransitive(a: string, b: string, c: string)
    requires LessOrEqual(a, b) && LessOrEqual(b, c)
    requires Less(a, b) || Less(b, c)
    ensures Less(a, c)
  {
    Transitive(a, b, c);
    if a == c {
      Antisymmetric(a, b);
    }
  }

  // ----- prefixes and the order

  lemma {:induction false} PrefixIsLessOrEqual(p: string, s: string)
    requires p <= s
    ensures LessOrEqual(p, s)
  {
    if p != [] {
      PrefixIsLessOrEqual(p[1..], s[1..]);
    }
  }

  /** Whatever sorts between a string and one of its extensions is an extension itself, and an earlier one. */
  lemma {:induction false} BetweenExtendsPrefix(p: string, f: string, s: string)
    requires p <= s
    requires LessOrEqual(p, f) && LessOrEqual(f, s)
    ensures p <= f && LessOrEqual(f[|p|..], s[|p|..])
  {
    if p != [] {
      BetweenExtendsPrefix(p[1..], f[1..], s[1..]);
      assert f == [f[0]] + f[1..];
      assert f[1..][|p| - 1..] == f[|p|..] && s[1..][|p| - 1..] == s[|p|..];
    }
  }

  lemma {:induction false} SubSymbolIsGreater(sub: string, super: string)
    requires IsSubSymbol(sub, super)
    ensures LessOrEqual(super, sub)
  {
    if sub == super {
      Reflexive(sub);
    } else {
      PrefixIsLessOrEqual(super, sub);
    }
  }

  /**
    The heart of the lookup: a valid name that sorts between a symbol and one of its
    sub-symbols is a sub-symbol too, because '.' sorts below every other symbol character.
    The searched name `sub` and the parent `super` need not be valid.
   */
  lemma {:induction false} BetweenIsSubSymbol(super: string, found: string, sub: string)
    requires IsSubSymbol(sub, super)
    requires ValidateSymbolName(found)
    requires LessOrEqual(super, found) && LessOrEqual(found, sub)
    ensures IsSubSymbol(found, super)
  {
    if sub == super {
      Antisymmetric(super, found);
    } else if found != super {
      BetweenExtendsPrefix(super, found, sub);
      var i := |super|;
      assert found[..i] == super && |found| > i;
      assert found[i..][0] == found[i] && sub[i..][0] == '.';
      assert IsSymbolChar(found[i]);
    }
  }

  // ----- the parent relation

  lemma {:induction false} SubSymbolTransitive(a: string, b: string, c: string)
    requires IsSubSymbol(a, b) && IsSubSymbol(b, c)
    ensures IsSubSymbol(a, c)
  {
    if a != b && b != c {
      assert a[..|c|] == a[..|b|][..|c|] == b[..|c|];
      assert a[|c|] == a[..|b|][|c|];
    }
  }

  /** Two parents of one symbol lie on the same chain. */
  lemma {:induction false} ParentsAreComparable(s: string, a: string, b: string)
    requires IsSubSymbol(s, a) && IsSubSymbol(s, b)
    ensures Comparable(a, b)
  {
    if |a| < |b| {
      assert b[..|a|] == s[..|b|][..|a|] == s[..|a|];
      assert b[|a|] == s[..|b|][|a|];
    } else if |b| < |a| {
      assert a[..|b|] == s[..|a|][..|b|] == s[..|b|];
      assert a[|b|] == s[..|a|][|b|];
    } else {
      assert s[..|a|] == s[..|b|];
    }
  }
}
