/** Which directory entries are policy files, by name. */
module PolicyFiles {
  import opened Wrappers
  import opened Utf8

  const DOT: Byte := 0x2E
  const HASH: Byte := 0x23
  const CEDAR: Bytes := [0x63, 0x65, 0x64, 0x61, 0x72]

  /** The position of the last dot, or the length when there is none. */
  function LastDot(name: Bytes): (n: nat)
    ensures n <= |name| && (n < |name| ==> name[n] == DOT)
    ensures forall i :: n < i < |name| ==> name[i] != DOT
    ensures n == |name| ==> DOT !in name
  {
    if name == [] then 0
    else
      var n := LastDot(name[1..]);
      if n < |name| - 1 then n + 1 else if name[0] == DOT then 0 else |name|
  }

  /** What follows the last dot; a name whose only dot comes first has no extension. */
  function Extension(name: Bytes): Option<Bytes> {
    var n := LastDot(name);
    if n == |name| || n == 0 || name == [DOT, DOT] then None else Some(name[n + 1..])
  }

  function Stem(name: Bytes): Bytes {
    if Extension(name).None? then name else name[..LastDot(name)]
  }

  predicate HasCedarExtension(name: Bytes) {
    Extension(name) == Some(CEDAR)
  }

  /** The names the loader does not skip: UTF-8, and not the shape of a lock file or a backup. */
  predicate IsLoadableName(name: Bytes) {
    IsUtf8(name) && (name == [] || (name[0] != DOT && name[0] != HASH))
  }

  /** Of the names that are text, those are skipped that start with `.` or `#`; all others are. */
  lemma SkippedByName(text: string)
    ensures IsLoadableName(Encode(text)) <==> text == "" || (text[0] != '.' && text[0] != '#')
  {
    EncodeDecodes(text);
    if text != "" {
      assert Encode(text)[0] == EncodeChar(text[0])[0];
    }
  }

  /** And a name that is no text is skipped. */
  lemma SkippedAsNoText(name: Bytes)
    ensures IsLoadableName(name) ==> exists text :: name == Encode(text)
  {
    if IsLoadableName(name) {
      DecodeEncodes(name);
    }
  }

  /** A policy file's name ends in `.cedar`, with something in front of it. */
  lemma CedarEnding(name: Bytes)
    ensures HasCedarExtension(name) <==>
            |name| > 6 && name[|name| - 6..] == [0x2E, 0x63, 0x65, 0x64, 0x61, 0x72]
  {
    var n := LastDot(name);
    if HasCedarExtension(name) {
      assert name[|name| - 6..] == [name[n]] + name[n + 1..];
    }
    if |name| > 6 && name[|name| - 6..] == [0x2E, 0x63, 0x65, 0x64, 0x61, 0x72] {
      var tail := name[|name| - 6..];
      assert forall i :: |name| - 6 <= i < |name| ==> name[i] == tail[i - (|name| - 6)];
      assert name[|name| - 6] == DOT && forall i :: |name| - 6 < i < |name| ==> name[i] != DOT;
      assert n == |name| - 6;
      assert name[n + 1..] == tail[1..];
    }
  }

  /** Whatever the stem, `.cedar` behind it makes a policy file's name with that stem. */
  lemma StemOfName(stem: Bytes)
    requires stem != []
    ensures HasCedarExtension(stem + [DOT] + CEDAR) && Stem(stem + [DOT] + CEDAR) == stem
  {
    var name := stem + [DOT] + CEDAR;
    assert name[|stem|] == DOT && name[|stem| + 1..] == CEDAR && name[..|stem|] == stem;
    assert LastDot(name) == |stem|;
  }

  /** Among policy files, the name is the stem and `.cedar`. */
  lemma CedarName(name: Bytes)
    requires HasCedarExtension(name)
    ensures name == Stem(name) + [DOT] + CEDAR
  {
    var n := LastDot(name);
    assert name == name[..n] + [name[n]] + name[n + 1..];
  }
}
