/** The bytes a load feeds to the hash: each file's name and contents, each behind its length. */
module ContentDigest {
  import opened Wrappers
  import opened Utf8

  /** A `u64` in little-endian order; `width` is 8 where it matters. */
  function LittleEndian(n: nat, width: nat): Bytes {
    if width == 0 then [] else [n % 256] + LittleEndian(n / 256, width - 1)
  }

  function FromLittleEndian(b: Bytes): nat {
    if b == [] then 0 else b[0] + 256 * FromLittleEndian(b[1..])
  }

  function Power256(width: nat): nat {
    if width == 0 then 1 else 256 * Power256(width - 1)
  }

  const WORD: nat := 8

  /** A length fits the word that is written for it. */
  predicate Fits(n: nat) {
    n < 0x1_0000_0000_0000_0000
  }

  datatype PolicyFile = PolicyFile(name: Bytes, contents: Bytes)

  predicate FileFits(f: PolicyFile) {
    Fits(|f.name|) && Fits(|f.contents|)
  }

  function Framed(b: Bytes): Bytes {
    LittleEndian(|b|, WORD) + b
  }

  function FrameFile(f: PolicyFile): Bytes {
    Framed(f.name) + Framed(f.contents)
  }

  function FrameAll(files: seq<PolicyFile>): Bytes {
    if files == [] then [] else FrameFile(files[0]) + FrameAll(files[1..])
  }

  /** The running digest, as the bytes it has been fed. */
  class Digest {
    var fed: Bytes

    constructor ()
      ensures fed == []
    {
      fed := [];
    }

    method AddFile(f: PolicyFile)
      modifies this
      ensures fed == old(fed) + FrameFile(f)
    {
      fed := fed + LittleEndian(|f.name|, WORD);
      fed := fed + f.name;
      fed := fed + LittleEndian(|f.contents|, WORD);
      fed := fed + f.contents;
    }
  }

  // ---------------------------------------------------------------------------
  // Reading the stream back
  // ---------------------------------------------------------------------------

  /** One framed string off the front, and what follows it. */
  function ReadFrame(b: Bytes): Option<(Bytes, Bytes)> {
    if |b| < WORD then None
    else
      var n := FromLittleEndian(b[..WORD]);
      if |b| < WORD + n then None else Some((b[WORD..WORD + n], b[WORD + n..]))
  }

  /** The files a stream was fed from. */
  function ReadFiles(b: Bytes): Option<seq<PolicyFile>>
    decreases |b|
  {
    if b == [] then Some([])
    else match ReadFrame(b)
         case None => None
         case Some((name, rest)) =>
           (match ReadFrame(rest)
            case None => None
            case Some((contents, more)) =>
              (match ReadFiles(more)
               case None => None
               case Some(files) => Some([PolicyFile(name, contents)] + files)))
  }

  lemma {:induction false} LittleEndianLength(n: nat, width: nat)
    ensures |LittleEndian(n, width)| == width
  {
    if width > 0 {
      LittleEndianLength(n / 256, width - 1);
    }
  }

  lemma {:induction false} LittleEndianRoundTrip(n: nat, width: nat)
    requires n < Power256(width)
    ensures FromLittleEndian(LittleEndian(n, width)) == n
  {
    if width > 0 {
      LittleEndianRoundTrip(n / 256, width - 1);
      assert LittleEndian(n, width)[1..] == LittleEndian(n / 256, width - 1);
    }
  }

  lemma WordHolds(n: nat)
    requires Fits(n)
    ensures n < Power256(WORD)
  {
    assert Power256(2) == 0x1_0000;
    assert Power256(4) == 0x1_0000_0000;
    assert Power256(6) == 0x1_0000_0000_0000;
    assert Power256(8) == 0x1_0000_0000_0000_0000;
  }

  lemma ReadFrameBack(s: Bytes, rest: Bytes)
    requires Fits(|s|)
    ensures ReadFrame(Framed(s) + rest) == Some((s, rest))
  {
    var b := Framed(s) + rest;
    WordHolds(|s|);
    LittleEndianLength(|s|, WORD);
    LittleEndianRoundTrip(|s|, WORD);
    assert b[..WORD] == LittleEndian(|s|, WORD);
    assert b[WORD..WORD + |s|] == s;
    assert b[WORD + |s|..] == rest;
  }

  /** The stream gives back the list of files it was fed, names and contents. */
  lemma {:induction false} ReadFilesBack(files: seq<PolicyFile>)
    requires forall i :: 0 <= i < |files| ==> FileFits(files[i])
    ensures ReadFiles(FrameAll(files)) == Some(files)
  {
    if files != [] {
      var f, more := files[0], FrameAll(files[1..]);
      ReadFrameBack(f.name, Framed(f.contents) + more);
      ReadFrameBack(f.contents, more);
      assert FrameAll(files) == Framed(f.name) + (Framed(f.contents) + more);
      LittleEndianLength(|f.name|, WORD);
      ReadFilesBack(files[1..]);
      assert files == [f] + files[1..];
    }
  }

  /** No two different lists of files feed the same bytes. */
  lemma FramingIsInjective(a: seq<PolicyFile>, b: seq<PolicyFile>)
    requires forall i :: 0 <= i < |a| ==> FileFits(a[i])
    requires forall i :: 0 <= i < |b| ==> FileFits(b[i])
    ensures FrameAll(a) == FrameAll(b) <==> a == b
  {
    ReadFilesBack(a);
    ReadFilesBack(b);
  }

  /** The layout of one file's frame, for lengths of one byte: the length as a little-endian word of eight bytes
      and the name, then the same of the contents. */
  lemma FrameLayout(f: PolicyFile)
    requires |f.name| < 256 && |f.contents| < 256
    ensures FrameFile(f) == [|f.name|, 0, 0, 0, 0, 0, 0, 0] + f.name + [|f.contents|, 0, 0, 0, 0, 0, 0, 0] + f.contents
  {
    SmallWord(|f.name|);
    SmallWord(|f.contents|);
  }

  lemma SmallWord(n: nat)
    requires n < 256
    ensures LittleEndian(n, WORD) == [n, 0, 0, 0, 0, 0, 0, 0]
  {
    ZeroWord(7);
    assert LittleEndian(n, WORD) == [n] + LittleEndian(0, 7);
  }

  lemma {:induction false} ZeroWord(width: nat)
    ensures LittleEndian(0, width) == seq(width, _ => 0)
  {
    if width > 0 {
      ZeroWord(width - 1);
    }
  }
}
