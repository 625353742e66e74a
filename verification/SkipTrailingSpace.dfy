/**
  The two versions of `skip_trailing_space`: one reads aligned machine words, the other eight
  bytes at a time with `uint8korr`.  Both return how much of the string is left when its
  trailing spaces are dropped.
 */
module TrailingSpace {
  import opened ByteOrder

  const SPACE: byte := 0x20

  /** The byte-at-a-time definition. */
  function TrimmedLength(s: seq<byte>): (n: nat)
    ensures n <= |s|
  {
    if s != [] && s[|s| - 1] == SPACE then TrimmedLength(s[..|s| - 1]) else |s|
  }

  predicate AllSpaces(s: seq<byte>, from: nat, to: nat)
    requires to <= |s|
  {
    forall i :: from <= i < to ==> s[i] == SPACE
  }

  /** It is the end of the longest prefix that is empty or does not end in a space. */
  lemma {:induction false} TrimmedIsLongest(s: seq<byte>, n: nat)
    ensures n == TrimmedLength(s) <==>
            n <= |s| && (n == 0 || s[n - 1] != SPACE) && AllSpaces(s, n, |s|)
    ensures n <= |s| && (n == 0 || s[n - 1] != SPACE) ==> n <= TrimmedLength(s)
  {
    if s != [] && s[|s| - 1] == SPACE {
      var front := s[..|s| - 1];
      TrimmedIsLongest(front, n);
      assert forall i :: 0 <= i < |front| ==> front[i] == s[i];
    }
  }

  // ----- words full of spaces

  function SpaceWord(n: nat): nat {
    if n == 0 then 0 else 256 * SpaceWord(n - 1) + SPACE as nat
  }

  lemma SpaceWordValues()
    ensures SpaceWord(4) == 0x2020_2020 && SpaceWord(8) == 0x2020_2020_2020_2020
  {
    assert SpaceWord(2) == 0x2020;
    assert SpaceWord(4) == 256 * SpaceWord(3) + 0x20;
    assert SpaceWord(6) == 256 * SpaceWord(5) + 0x20;
  }

  /** Low byte first. */
  lemma {:induction false} DecodedSpaces(s: seq<byte>, at: nat, n: nat)
    requires at + n <= |s|
    ensures Decoded(s, at, n) == SpaceWord(n) <==> AllSpaces(s, at, at + n)
    decreases n
  {
    if n > 0 {
      DecodedSpaces(s, at + 1, n - 1);
    }
  }

  /** High byte first, as the machines of the aligned version load. */
  function BigEndian(s: seq<byte>, at: nat, n: nat): nat
    requires at + n <= |s|
  {
    if n == 0 then 0 else 256 * BigEndian(s, at, n - 1) + s[at + n - 1] as nat
  }

  lemma {:induction false} BigEndianSpaces(s: seq<byte>, at: nat, n: nat)
    requires at + n <= |s|
    ensures BigEndian(s, at, n) == SpaceWord(n) <==> AllSpaces(s, at, at + n)
  {
    if n > 0 {
      BigEndianSpaces(s, at, n - 1);
    }
  }

  // ----- eight bytes at a time

  method SkipTrailingSpace(s: seq<byte>) returns (end: nat)
    ensures end == TrimmedLength(s)
  {
    end := |s|;
    while end >= 8
      invariant end <= |s| && AllSpaces(s, end, |s|)
    {
      SpaceWordValues();
      DecodedSpaces(s, end - 8, 8);
      if Uint8Korr(s, end - 8) != 0x2020_2020_2020_2020 {
        break;
      }
      end := end - 8;
    }
    while end > 0 && s[end - 1] == SPACE
      invariant end <= |s| && AllSpaces(s, end, |s|)
    {
      end := end - 1;
    }
    TrimmedIsLongest(s, end);
  }

  // ----- aligned words

  const ADDRESSES: nat := 0x1_0000_0000_0000_0000

  /** The string lies at address `ptr`; its end must be an address too. */
  predicate Placed(s: seq<byte>, ptr: nat) {
    ptr + |s| < ADDRESSES
  }

  /** A byte read, which must stay inside the string. */
  function ByteAt(s: seq<byte>, ptr: nat, address: nat): byte
    requires ptr <= address < ptr + |s|
  {
    s[address - ptr]
  }

  predicate Aligned(address: nat, word: nat) {
    if word == 4 then address % 4 == 0 else address % 8 == 0
  }

  /** A word read, which must be aligned and stay inside the string. */
  function WordAt(s: seq<byte>, ptr: nat, address: nat, word: nat): nat
    requires word == 4 || word == 8
    requires Aligned(address, word)
    requires ptr <= address && address + word <= ptr + |s|
  {
    BigEndian(s, address - ptr, word)
  }

  function AlignedDown4(x: nat): (d: nat)
    ensures d % 4 == 0 && d <= x < d + 4
  {
    x / 4 * 4
  }

  function AlignedDown8(x: nat): (d: nat)
    ensures d % 8 == 0 && d <= x < d + 8
  {
    x / 8 * 8
  }

  /** `x / SIZEOF_INT * SIZEOF_INT` */
  function AlignedDown(x: nat, word: nat): (d: nat)
    requires word == 4 || word == 8
    ensures Aligned(d, word) && d <= x < d + word
  {
    if word == 4 then AlignedDown4(x) else AlignedDown8(x)
  }

  /** The comparison with SPACE_INT, a word that holds only spaces. */
  predicate IsSpaceInt(s: seq<byte>, ptr: nat, address: nat, word: nat): (b: bool)
    requires word == 4 || word == 8
    requires Aligned(address, word) && ptr <= address && address + word <= ptr + |s|
    ensures b <==> AllSpaces(s, address - ptr, address - ptr + word)
  {
    SpaceWordValues();
    BigEndianSpaces(s, address - ptr, word);
    WordAt(s, ptr, address, word) == if word == 4 then 0x2020_2020 else 0x2020_2020_2020_2020
  }

  lemma WordBelow4(low: nat, high: nat)
    requires low % 4 == 0 && high % 4 == 0 && low < high
    ensures low + 4 <= high && (high - 4) % 4 == 0
  {
  }

  lemma WordBelow8(low: nat, high: nat)
    requires low % 8 == 0 && high % 8 == 0 && low < high
    ensures low + 8 <= high && (high - 8) % 8 == 0
  {
  }

  lemma WordBelow(low: nat, high: nat, word: nat)
    requires word == 4 || word == 8
    requires Aligned(low, word) && Aligned(high, word) && low < high
    ensures low + word <= high && Aligned(high - word, word)
  {
    if word == 4 {
      WordBelow4(low, high);
    } else {
      WordBelow8(low, high);
    }
  }

  /** The loop over aligned words, down to `startWords` at most. */
  method SkipSpaceInts(s: seq<byte>, ptr: nat, word: nat, startWords: nat, endWords: nat) returns (end: nat)
    requires word == 4 || word == 8
    requires ptr <= startWords <= endWords <= ptr + |s|
    requires Aligned(startWords, word) && Aligned(endWords, word)
    ensures startWords <= end <= endWords && AllSpaces(s, end - ptr, endWords - ptr)
  {
    end := endWords;
    while end > startWords
      invariant startWords <= end <= endWords && Aligned(end, word) && AllSpaces(s, end - ptr, endWords - ptr)
    {
      WordBelow(startWords, end, word);
      if !IsSpaceInt(s, ptr, end - word, word) {
        break;
      }
      end := end - word;
    }
  }

  /** The part for strings longer than 20 bytes; `word` is SIZEOF_INT. */
  method SkipAlignedWords(s: seq<byte>, ptr: nat, word: nat) returns (end: nat)
    requires word == 4 || word == 8
    requires Placed(s, ptr) && |s| > 20
    ensures ptr <= end <= ptr + |s| && AllSpaces(s, end - ptr, |s|)
  {
    end := ptr + |s|;
    assert ptr + word - 1 < ADDRESSES;
    var endWords := AlignedDown(end, word);
    var startWords := AlignedDown(ptr + word - 1, word);
    assert endWords > ptr;
    while end > endWords && ByteAt(s, ptr, end - 1) == SPACE
      invariant endWords <= end <= ptr + |s| && AllSpaces(s, end - ptr, |s|)
    {
      end := end - 1;
    }
    if ByteAt(s, ptr, end - 1) == SPACE && startWords < endWords {
      end := SkipSpaceInts(s, ptr, word, startWords, endWords);
    }
  }

  method SkipTrailingSpaceAligned(s: seq<byte>, ptr: nat, word: nat) returns (end: nat)
    requires word == 4 || word == 8
    requires Placed(s, ptr)
    ensures end == ptr + TrimmedLength(s)
  {
    end := ptr + |s|;
    if |s| > 20 {
      end := SkipAlignedWords(s, ptr, word);
    }
    while end > ptr && ByteAt(s, ptr, end - 1) == SPACE
      invariant ptr <= end <= ptr + |s| && AllSpaces(s, end - ptr, |s|)
    {
      end := end - 1;
    }
    TrimmedIsLongest(s, end - ptr);
  }
}
