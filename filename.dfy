/**
  `generateRandomFilename` of the upload endpoint: the extension is the last
  piece of JavaScript's `originalFilename.split('.')`, the random part is
  sixteen random bytes in lower-case hex, and the result is `<hex>.<ext>`.
  The random bytes are a parameter here.
 */
module Filename {
  import Hex

  const Dot: char := '.'

  /** Number of random bytes drawn per name. */
  const RandomBytes: nat := 16

  /** JavaScript's `s.split('.')`: the pieces between dots, never an empty list. */
  function Split(s: string): (parts: seq<string>)
    ensures |parts| >= 1
    ensures forall i :: 0 <= i < |parts| ==> Dot !in parts[i]
  {
    if s == [] then [""]
    else
      var rest := Split(s[1..]);
      if s[0] == Dot then [""] + rest
      else [[s[0]] + rest[0]] + rest[1..]
  }

  /** JavaScript's `parts.join('.')`. */
  function Join(parts: seq<string>): string
    requires |parts| >= 1
  {
    if |parts| == 1 then parts[0] else parts[0] + [Dot] + Join(parts[1..])
  }

  /** Splitting loses nothing: joining the pieces with dots gives the name back. */
  lemma {:induction false} JoinSplit(s: string)
    ensures Join(Split(s)) == s
  {
    if s != [] {
      var rest := Split(s[1..]);
      JoinSplit(s[1..]);
      if s[0] != Dot && |rest| > 1 {
        assert Split(s)[1..] == rest[1..];
      }
    }
  }

  /** Dot-free pieces come back unchanged from a join followed by a split. */
  lemma {:induction false} SplitJoin(parts: seq<string>)
    requires |parts| >= 1
    requires forall i :: 0 <= i < |parts| ==> Dot !in parts[i]
    ensures Split(Join(parts)) == parts
  {
    if |parts| == 1 {
      SplitNoDot(parts[0]);
    } else {
      SplitJoin(parts[1..]);
      SplitAppend(parts[0], Join(parts[1..]));
    }
  }

  /** A name without a dot is a single piece. */
  lemma {:induction false} SplitNoDot(s: string)
    requires Dot !in s
    ensures Split(s) == [s]
  {
    if s != [] {
      SplitNoDot(s[1..]);
      assert s[0] != Dot;
      assert [s[0]] + s[1..] == s;
    }
  }

  /** A dot-free head followed by a dot starts a new piece. */
  lemma {:induction false} SplitAppend(head: string, tail: string)
    requires Dot !in head
    ensures Split(head + [Dot] + tail) == [head] + Split(tail)
  {
    if head == [] {
      assert head + [Dot] + tail == [Dot] + tail;
    } else {
      var whole := head + [Dot] + tail;
      assert whole[0] == head[0] && whole[1..] == head[1..] + [Dot] + tail;
      SplitAppend(head[1..], tail);
      assert head[0] != Dot;
      assert [head[0]] + head[1..] == head;
    }
  }

  /** JavaScript's `s.lastIndexOf(c)`: the last position of `c`, or -1. */
  function LastIndexOf(s: string, c: char): (i: int)
    ensures -1 <= i < |s|
    ensures i >= 0 ==> s[i] == c
    ensures forall j :: i < j < |s| ==> s[j] != c
  {
    if s == [] then -1
    else if s[|s| - 1] == c then |s| - 1
    else LastIndexOf(s[..|s| - 1], c)
  }

  /** `originalFilename.split('.').pop()`. */
  function Extension(name: string): (ext: string)
    ensures Dot !in ext
  {
    var parts := Split(name);
    parts[|parts| - 1]
  }

  /** The extension is exactly what follows the last dot (the whole name when it has none). */
  lemma {:induction false} ExtensionAfterLastDot(name: string)
    ensures Extension(name) == name[LastIndexOf(name, Dot) + 1..]
  {
    var k := LastIndexOf(name, Dot);
    if k < 0 {
      assert Dot !in name;
      SplitNoDot(name);
    } else {
      var head, tail := name[..k], name[k + 1..];
      assert Dot !in tail;
      assert name == head + [Dot] + tail;
      SplitNoDot(tail);
      SplitPrefix(head, tail);
    }
  }

  /** Whatever precedes the last dot, the last piece is what follows it. */
  lemma {:induction false} SplitPrefix(head: string, tail: string)
    requires Dot !in tail
    ensures var parts := Split(head + [Dot] + tail); |parts| >= 2 && parts[|parts| - 1] == tail
  {
    if head == [] {
      assert head + [Dot] + tail == [Dot] + tail;
      SplitNoDot(tail);
    } else {
      var whole := head + [Dot] + tail;
      assert whole[0] == head[0] && whole[1..] == head[1..] + [Dot] + tail;
      SplitPrefix(head[1..], tail);
    }
  }

  /** The extension is a suffix of the name and contains no dot. */
  lemma ExtensionIsSuffix(name: string)
    ensures var ext := Extension(name);
      |ext| <= |name| && name[|name| - |ext|..] == ext && Dot !in ext
  {
    ExtensionAfterLastDot(name);
  }

  /** A name with no dot is its own extension. */
  lemma ExtensionWithoutDot(name: string)
    requires Dot !in name
    ensures Extension(name) == name
  {
    SplitNoDot(name);
  }

  /** A name ending in a dot has the empty extension. */
  lemma ExtensionAfterTrailingDot(name: string)
    requires |name| > 0 && name[|name| - 1] == Dot
    ensures Extension(name) == ""
  {
    ExtensionAfterLastDot(name);
  }

  /**
    `generateRandomFilename`: 32 lower-case hex characters, a dot, then the
    original extension.
   */
  function Generate(originalName: string, random: seq<Hex.byte>): (filename: string)
    requires |random| == RandomBytes
    ensures |filename| == 33 + |Extension(originalName)|
    ensures Hex.IsLowerHexString(filename[..32])
    ensures filename[32] == Dot
    ensures filename[33..] == Extension(originalName)
  {
    Hex.Encode(random) + [Dot] + Extension(originalName)
  }

  /** The generated name has exactly one dot: it splits into the hex part and the extension. */
  lemma GenerateSplitsInTwo(originalName: string, random: seq<Hex.byte>)
    requires |random| == RandomBytes
    ensures Split(Generate(originalName, random)) == [Hex.Encode(random), Extension(originalName)]
  {
    SplitJoin([Hex.Encode(random), Extension(originalName)]);
  }

  /** Generating a name keeps the original's extension. */
  lemma GeneratePreservesExtension(originalName: string, random: seq<Hex.byte>)
    requires |random| == RandomBytes
    ensures Extension(Generate(originalName, random)) == Extension(originalName)
  {
    GenerateSplitsInTwo(originalName, random);
  }

  /** The random bytes can be read back from the first 32 characters. */
  lemma GenerateRecoversRandom(originalName: string, random: seq<Hex.byte>)
    requires |random| == RandomBytes
    ensures Hex.Decode(Generate(originalName, random)[..32]) == random
  {
    assert Generate(originalName, random)[..32] == Hex.Encode(random);
    Hex.DecodeEncode(random);
  }

  /** Two generated names can only coincide when the random bytes do. */
  lemma GenerateInjective(name1: string, random1: seq<Hex.byte>, name2: string, random2: seq<Hex.byte>)
    requires |random1| == RandomBytes && |random2| == RandomBytes
    requires Generate(name1, random1) == Generate(name2, random2)
    ensures random1 == random2 && Extension(name1) == Extension(name2)
  {
    GenerateRecoversRandom(name1, random1);
    GenerateRecoversRandom(name2, random2);
  }

  /** The generated name ends in a bare dot exactly when the extension is empty. */
  lemma GenerateTrailingDot(originalName: string, random: seq<Hex.byte>)
    requires |random| == RandomBytes
    ensures var filename := Generate(originalName, random);
      filename[|filename| - 1] == Dot <==> Extension(originalName) == ""
  {
  }
}
