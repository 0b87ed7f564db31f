/** The ambiguity check on a raw endpoint path: is there a number of percent-decodes after which
    a normalising origin would resolve the path to something else than it spells? */
module EndpointPath {
  import opened Wrappers
  import opened Utf8
  import opened Splitting

  const PERCENT: Byte := 0x25
  const DOT: Byte := 0x2E
  const SLASH: Byte := 0x2F
  const BACKSLASH: Byte := 0x5C
  const SEMICOLON: Byte := 0x3B
  const QUESTION: Byte := 0x3F

  /** Deepest percent-decode nesting that is followed before giving up. */
  const MAX_DECODE_PASSES: nat := 8

  datatype Ambiguity =
    | DotSegment(segment: Bytes, passes: nat)
    | MalformedEscape
    | NonUtf8
    | NestedTooDeep

  // ---------------------------------------------------------------------------
  // Segments
  // ---------------------------------------------------------------------------

  predicate IsDots(segment: Bytes) {
    segment == [DOT] || segment == [DOT, DOT]
  }

  function FirstDots(segments: seq<Bytes>): Option<Bytes> {
    if segments == [] then None
    else if IsDots(Before(segments[0], SEMICOLON)) then Some(Before(segments[0], SEMICOLON))
    else FirstDots(segments[1..])
  }

  /** The first `.` or `..` segment, splitting on both slashes and dropping `;`-parameters. */
  function DotSegmentOf(path: Bytes): Option<Bytes> {
    FirstDots(Split(path, {SLASH, BACKSLASH}))
  }

  // ---------------------------------------------------------------------------
  // What the search for a dot segment looks for, byte by byte
  // ---------------------------------------------------------------------------

  /** From `i` to `j` stands `.` or `..`, behind the start, `/` or `\`, and in front of the end, `/`, `\` or
      `;`. */
  predicate DotsStandAt(s: Bytes, i: nat, j: nat) {
    i <= j <= |s| && (i == 0 || s[i - 1] == 0x2F || s[i - 1] == 0x5C) &&
    (j == |s| || s[j] == 0x2F || s[j] == 0x5C || s[j] == 0x3B) &&
    (s[i..j] == [0x2E] || s[i..j] == [0x2E, 0x2E])
  }

  lemma DotsStandFurther(s: Bytes, n: nat, i: nat, j: nat)
    requires n < |s| && (s[n] == 0x2F || s[n] == 0x5C)
    ensures DotsStandAt(s[n + 1..], i, j) <==> DotsStandAt(s, n + 1 + i, n + 1 + j)
  {
    if i <= j <= |s| - n - 1 {
      assert s[n + 1..][i..j] == s[n + 1 + i..n + 1 + j];
    }
  }

  /** In the first segment, dots can only stand at its start. */
  lemma DotsInFirst(s: Bytes)
    ensures var n := Cut(s, {SLASH, BACKSLASH});
            IsDots(Before(s[..n], SEMICOLON)) <==> exists i: nat, j: nat :: i <= n && DotsStandAt(s, i, j)
  {
    var n := Cut(s, {SLASH, BACKSLASH});
    var m := Cut(s[..n], {SEMICOLON});
    if IsDots(Before(s[..n], SEMICOLON)) {
      assert s[..n][..m] == s[0..m];
      assert DotsStandAt(s, 0, m);
    }
    if i: nat, j: nat :| i <= n && DotsStandAt(s, i, j) {
      assert i == 0;
      assert forall k :: i <= k < j ==> s[k] == s[i..j][k - i] == 0x2E;
      assert j <= n;
      assert m == j;
      assert s[..n][..m] == s[0..j];
    }
  }

  lemma FirstOrLater(s: Bytes)
    ensures var n := Cut(s, {SLASH, BACKSLASH});
            DotSegmentOf(s).Some? <==>
            IsDots(Before(s[..n], SEMICOLON)) || (n < |s| && DotSegmentOf(s[n + 1..]).Some?)
  {
    var n := Cut(s, {SLASH, BACKSLASH});
    var segments := Split(s, {SLASH, BACKSLASH});
    if n < |s| {
      assert segments[1..] == Split(s[n + 1..], {SLASH, BACKSLASH});
    } else {
      assert s[..n] == s && segments[1..] == [] && FirstDots(segments[1..]).None?;
    }
  }

  lemma StandsFurther(s: Bytes, n: nat, rest: Bytes)
    requires n < |s| && (s[n] == 0x2F || s[n] == 0x5C) && rest == s[n + 1..]
    ensures (exists i: nat, j: nat :: DotsStandAt(rest, i, j)) <==>
            exists i: nat, j: nat :: i > n && DotsStandAt(s, i, j)
  {
    if i: nat, j: nat :| DotsStandAt(rest, i, j) {
      DotsStandFurther(s, n, i, j);
    }
    if i: nat, j: nat :| i > n && DotsStandAt(s, i, j) {
      DotsStandFurther(s, n, i - n - 1, j - n - 1);
    }
  }

  /** The search finds a segment exactly when dots stand somewhere. */
  lemma {:induction false} DotSegmentMeans(s: Bytes)
    ensures DotSegmentOf(s).Some? <==> exists i: nat, j: nat :: DotsStandAt(s, i, j)
    decreases |s|
  {
    var n := Cut(s, {SLASH, BACKSLASH});
    FirstOrLater(s);
    DotsInFirst(s);
    if n < |s| {
      DotSegmentMeans(s[n + 1..]);
      StandsFurther(s, n, s[n + 1..]);
    }
  }

  // ---------------------------------------------------------------------------
  // Percent-decoding
  // ---------------------------------------------------------------------------

  function HexValue(b: Byte): (v: Option<Byte>)
    ensures v.Some? ==> v.value < 16
  {
    if 0x30 <= b <= 0x39 then Some(b - 0x30)
    else if 0x61 <= b <= 0x66 then Some(b - 0x61 + 10)
    else if 0x41 <= b <= 0x46 then Some(b - 0x41 + 10)
    else None
  }

  /** Every `%` must start a `pct-encoded` triplet (section 2.1 of RFC 3986). */
  predicate IsEscape(text: Bytes) {
    |text| >= 3 && text[0] == PERCENT && HexValue(text[1]).Some? && HexValue(text[2]).Some?
  }

  function EscapedByte(text: Bytes): Byte
    requires IsEscape(text)
  {
    HexValue(text[1]).value * 16 + HexValue(text[2]).value
  }

  function Prepend(head: Bytes, rest: Option<Bytes>): Option<Bytes> {
    if rest.None? then None else Some(head + rest.value)
  }

  lemma PrependLaws(a: Bytes, b: Bytes, rest: Option<Bytes>)
    ensures Prepend([], rest) == rest
    ensures Prepend(a, Prepend(b, rest)) == Prepend(a + b, rest)
  {
    if rest.Some? {
      assert [] + rest.value == rest.value;
      assert a + (b + rest.value) == (a + b) + rest.value;
    }
  }

  /** All triplets replaced by the bytes they stand for; nothing when a `%` is malformed. */
  function Unescape(text: Bytes): Option<Bytes> {
    if text == [] then Some([])
    else if text[0] != PERCENT then Prepend([text[0]], Unescape(text[1..]))
    else if IsEscape(text) then Prepend([EscapedByte(text)], Unescape(text[3..]))
    else None
  }

  function PercentDecode(text: Bytes): Result<Bytes, Ambiguity> {
    match Unescape(text)
    case None => Err(MalformedEscape)
    case Some(out) => if IsUtf8(out) then Ok(out) else Err(NonUtf8)
  }

  method RunPercentDecode(text: Bytes) returns (r: Result<Bytes, Ambiguity>)
    ensures r == PercentDecode(text)
  {
    var out: Bytes := [];
    var i := 0;
    PrependLaws([], [], Unescape(text));
    while i < |text|
      invariant 0 <= i <= |text|
      invariant Unescape(text) == Prepend(out, Unescape(text[i..]))
    {
      if text[i] != PERCENT {
        assert text[i..][1..] == text[i + 1..];
        PrependLaws(out, [text[i]], Unescape(text[i + 1..]));
        out := out + [text[i]];
        i := i + 1;
        continue;
      }
      var high := if i + 1 < |text| then HexValue(text[i + 1]) else None;
      var low := if i + 2 < |text| then HexValue(text[i + 2]) else None;
      if high.None? || low.None? {
        return Err(MalformedEscape);
      }
      assert text[i..][3..] == text[i + 3..];
      PrependLaws(out, [high.value * 16 + low.value], Unescape(text[i + 3..]));
      out := out + [high.value * 16 + low.value];
      i := i + 3;
    }
    assert out + [] == out;
    return if IsUtf8(out) then Ok(out) else Err(NonUtf8);
  }

  /** The text after `k` percent-decodes, where that is defined. */
  function Decoded(text: Bytes, k: nat): Option<Bytes>
    decreases k
  {
    if k == 0 then Some(text)
    else match PercentDecode(text)
         case Ok(next) => Decoded(next, k - 1)
         case Err(_) => None
  }

  // ---------------------------------------------------------------------------
  // The bounded search
  // ---------------------------------------------------------------------------

  /** What the search answers once it has decoded `passes` times and holds `current`. */
  function Search(current: Bytes, passes: nat): Option<Ambiguity>
    decreases MAX_DECODE_PASSES + 1 - passes
  {
    if passes > MAX_DECODE_PASSES then Some(NestedTooDeep)
    else match DotSegmentOf(current)
         case Some(segment) => Some(DotSegment(segment, passes))
         case None =>
           if PERCENT !in current then None
           else match PercentDecode(current)
                case Ok(next) => if next == current then None else Search(next, passes + 1)
                case Err(undecodable) => if passes == 0 then Some(undecodable) else None
  }

  function AmbiguityOf(path: Bytes): Option<Ambiguity> {
    Search(Before(path, QUESTION), 0)
  }

  method CheckAmbiguity(path: Bytes) returns (r: Option<Ambiguity>)
    ensures r == AmbiguityOf(path)
  {
    var current := Before(path, QUESTION);
    for passes := 0 to MAX_DECODE_PASSES + 1
      invariant AmbiguityOf(path) == Search(current, passes)
    {
      var segment := DotSegmentOf(current);
      if segment.Some? {
        return Some(DotSegment(segment.value, passes));
      }
      if PERCENT !in current {
        return None;
      }
      var decoded := RunPercentDecode(current);
      match decoded {
        case Ok(next) =>
          if next == current {
            return None;
          }
          current := next;
        case Err(undecodable) =>
          return if passes == 0 then Some(undecodable) else None;
      }
    }
    return Some(NestedTooDeep);
  }

  // ---------------------------------------------------------------------------
  // What one decode does
  // ---------------------------------------------------------------------------

  /** Decoding never lengthens, and shortens whenever there was something to decode. */
  lemma {:induction false} UnescapeShrinks(text: Bytes)
    requires Unescape(text).Some?
    ensures |Unescape(text).value| <= |text|
    ensures PERCENT in text ==> |Unescape(text).value| < |text|
    ensures PERCENT !in text ==> Unescape(text).value == text
  {
    if text == [] {
    } else if text[0] != PERCENT {
      UnescapeShrinks(text[1..]);
      assert text == [text[0]] + text[1..];
    } else {
      UnescapeShrinks(text[3..]);
    }
  }

  /** The arm that stops at a fixed point is never taken: text holding a `%` that decodes at all
      decodes to something else, strictly shorter. */
  lemma DecodeMakesProgress(text: Bytes)
    requires PERCENT in text && PercentDecode(text).Ok?
    ensures |PercentDecode(text).value| < |text|
  {
    UnescapeShrinks(text);
  }

  lemma {:induction false} PlainTextDecodes(text: Bytes)
    requires PERCENT !in text
    ensures Unescape(text) == Some(text)
  {
    if text != [] {
      PlainTextDecodes(text[1..]);
      assert text == [text[0]] + text[1..];
    }
  }

  lemma {:induction false} UnescapeAppend(a: Bytes, b: Bytes)
    requires PERCENT !in a
    ensures Unescape(a + b) == Prepend(a, Unescape(b))
  {
    PrependLaws([], [], Unescape(b));
    if a == [] {
      assert a + b == b;
    } else {
      assert (a + b)[1..] == a[1..] + b;
      UnescapeAppend(a[1..], b);
      PrependLaws([a[0]], a[1..], Unescape(b));
      assert a == [a[0]] + a[1..];
    }
  }

  lemma {:induction false} DecodedSucc(text: Bytes, k: nat)
    ensures Decoded(text, k + 1) ==
            match Decoded(text, k)
            case None => None
            case Some(t) => match PercentDecode(t) case Ok(u) => Some(u) case Err(_) => None
    decreases k
  {
    if k > 0 && PercentDecode(text).Ok? {
      DecodedSucc(PercentDecode(text).value, k - 1);
    }
  }

  /** Once a decode is undefined, so is every deeper one. */
  lemma {:induction false} UndefinedStaysUndefined(text: Bytes, j: nat, k: nat)
    requires j <= k && Decoded(text, j).None?
    ensures Decoded(text, k).None?
  {
    if j < k {
      UndefinedStaysUndefined(text, j, k - 1);
      DecodedSucc(text, k - 1);
    }
  }

  /** Once a decode is free of `%`, every deeper one is the same text. */
  lemma {:induction false} PlainStaysPlain(text: Bytes, j: nat, k: nat)
    requires j <= k && IsUtf8(text)
    requires Decoded(text, j).Some? && PERCENT !in Decoded(text, j).value
    ensures Decoded(text, k) == Decoded(text, j)
  {
    if j < k {
      PlainStaysPlain(text, j, k - 1);
      DecodedSucc(text, k - 1);
      DecodedIsUtf8(text, j);
      PlainTextDecodes(Decoded(text, j).value);
    }
  }

  lemma {:induction false} DecodedIsUtf8(text: Bytes, k: nat)
    requires IsUtf8(text) && Decoded(text, k).Some?
    ensures IsUtf8(Decoded(text, k).value)
  {
    if k > 0 {
      DecodedSucc(text, k - 1);
    }
  }

  /** What follows the first `?` does not matter. */
  lemma QueryIsIgnored(path: Bytes, query: Bytes)
    requires 0x3F !in path
    ensures AmbiguityOf(path + [0x3F] + query) == AmbiguityOf(path)
  {
    NoCut(path, {QUESTION});
    CutInFront(path, QUESTION, query, {QUESTION});
    assert path[..|path|] == path;
  }

  /** The part in front of the query is itself a string. */
  lemma RoutingPartIsUtf8(path: Bytes)
    requires IsUtf8(path)
    ensures IsUtf8(Before(path, QUESTION))
  {
    var n := Cut(path, {QUESTION});
    assert path == path[..n] + path[n..];
    if n < |path| {
      Utf8CutAtAscii(path[..n], path[n..]);
    } else {
      assert path[..n] == path;
    }
  }

  // ---------------------------------------------------------------------------
  // Every spelling is read
  // ---------------------------------------------------------------------------

  /** The sixteen digits in either case: `0123456789abcdef` and `0123456789ABCDEF`. */
  const LOWER: seq<Byte> :=
    [0x30, 0x31, 0x32, 0x33, 0x34, 0x35, 0x36, 0x37, 0x38, 0x39, 0x61, 0x62, 0x63, 0x64, 0x65, 0x66]
  const UPPER: seq<Byte> :=
    [0x30, 0x31, 0x32, 0x33, 0x34, 0x35, 0x36, 0x37, 0x38, 0x39, 0x41, 0x42, 0x43, 0x44, 0x45, 0x46]

  /** How one byte is written: as it is, or as a triplet with each digit in either case. */
  datatype Writing = Plain | Triplet(high: seq<Byte>, low: seq<Byte>)

  predicate IsWriting(w: Writing) {
    w.Triplet? ==> (w.high == LOWER || w.high == UPPER) && (w.low == LOWER || w.low == UPPER)
  }

  function WriteByte(b: Byte, w: Writing): Bytes
    requires IsWriting(w)
  {
    match w
    case Plain => [b]
    case Triplet(high, low) => [0x25, high[b / 16], low[b % 16]]
  }

  /** A way of writing the text: every `%` in it is a triplet, anything else may be. */
  predicate AreWritings(text: Bytes, ws: seq<Writing>) {
    |ws| == |text| && forall i :: 0 <= i < |text| ==> IsWriting(ws[i]) && (text[i] == 0x25 ==> ws[i].Triplet?)
  }

  function Write(text: Bytes, ws: seq<Writing>): Bytes
    requires AreWritings(text, ws)
  {
    if text == [] then [] else WriteByte(text[0], ws[0]) + Write(text[1..], ws[1..])
  }

  lemma DigitIsRead(digits: seq<Byte>, v: nat)
    requires (digits == LOWER || digits == UPPER) && v < 16
    ensures HexValue(digits[v]) == Some(v)
  {
    if v < 10 {
      assert digits[v] == 0x30 + v;
    } else {
      assert digits[v] == (if digits == LOWER then 0x61 else 0x41) + v - 10;
    }
  }

  /** Whatever bytes are written as triplets, in whatever case, unescaping gives the text back. */
  lemma {:induction false} WrittenIsRead(text: Bytes, ws: seq<Writing>, rest: Bytes)
    requires AreWritings(text, ws)
    ensures Unescape(Write(text, ws) + rest) == Prepend(text, Unescape(rest))
  {
    PrependLaws([], [], Unescape(rest));
    if text == [] {
      assert [] + rest == rest;
    } else {
      var b, more := text[0], Write(text[1..], ws[1..]);
      WrittenIsRead(text[1..], ws[1..], rest);
      OneByteIsRead(b, ws[0], more + rest);
      PrependLaws([b], text[1..], Unescape(rest));
      assert [b] + text[1..] == text;
      assert (WriteByte(b, ws[0]) + more) + rest == WriteByte(b, ws[0]) + (more + rest);
    }
  }

  lemma OneByteIsRead(b: Byte, w: Writing, more: Bytes)
    requires IsWriting(w) && (b == 0x25 ==> w.Triplet?)
    ensures Unescape(WriteByte(b, w) + more) == Prepend([b], Unescape(more))
  {
    var s := WriteByte(b, w) + more;
    match w {
      case Plain => assert s[1..] == more;
      case Triplet(high, low) =>
        DigitIsRead(high, b / 16);
        DigitIsRead(low, b % 16);
        assert s[3..] == more && s[1] == high[b / 16] && s[2] == low[b % 16];
    }
  }

  /** Every way of writing a string decodes to it; one of writing bytes that are no string is refused. */
  lemma WrittenDecodes(text: Bytes, ws: seq<Writing>)
    requires AreWritings(text, ws)
    ensures PercentDecode(Write(text, ws)) == if IsUtf8(text) then Ok(text) else Err(NonUtf8)
  {
    WrittenIsRead(text, ws, []);
    assert Write(text, ws) + [] == Write(text, ws) && text + [] == text;
  }

  // ---------------------------------------------------------------------------
  // The exact meaning of every answer
  // ---------------------------------------------------------------------------

  /** After `j` decodes the search is still going: nothing dotted, something left to decode. */
  ghost predicate Open(text: Bytes, j: nat) {
    Decoded(text, j).Some? && DotSegmentOf(Decoded(text, j).value).None? && PERCENT in Decoded(text, j).value
  }

  /** The first `n` depths are all open. */
  ghost predicate OpenUpTo(text: Bytes, n: nat) {
    forall j :: 0 <= j < n ==> Open(text, j)
  }

  /** A dot segment is what depth `p` shows, and nothing ended the search before it. */
  ghost predicate DotsAt(text: Bytes, segment: Bytes, p: nat) {
    p <= MAX_DECODE_PASSES && OpenUpTo(text, p) && Decoded(text, p).Some? &&
    DotSegmentOf(Decoded(text, p).value) == Some(segment)
  }

  /** Depth `p` ends the search with nothing found: no `%` is left, or the next, speculative
      decode is undefined. */
  ghost predicate EndsClean(text: Bytes, p: nat) {
    p <= MAX_DECODE_PASSES && OpenUpTo(text, p) && Decoded(text, p).Some? &&
    DotSegmentOf(Decoded(text, p).value).None? &&
    (PERCENT !in Decoded(text, p).value || (p > 0 && Decoded(text, p + 1).None?))
  }

  /** Which of the five situations the answer stands for. */
  ghost predicate Justified(text: Bytes, answer: Option<Ambiguity>) {
    match answer
    case None => exists p :: EndsClean(text, p)
    case Some(DotSegment(segment, p)) => DotsAt(text, segment, p)
    case Some(MalformedEscape) => Open(text, 0) && Unescape(text).None?
    case Some(NonUtf8) => Open(text, 0) && Unescape(text).Some? && !IsUtf8(Unescape(text).value)
    case Some(NestedTooDeep) => OpenUpTo(text, MAX_DECODE_PASSES + 1) && Decoded(text, MAX_DECODE_PASSES + 1).Some?
  }

  lemma {:induction false} SearchIsJustified(text: Bytes, current: Bytes, passes: nat)
    requires passes <= MAX_DECODE_PASSES + 1
    requires OpenUpTo(text, passes) && Decoded(text, passes) == Some(current)
    ensures Justified(text, Search(current, passes))
    decreases MAX_DECODE_PASSES + 1 - passes
  {
    if passes <= MAX_DECODE_PASSES && DotSegmentOf(current).None? {
      DecodedSucc(text, passes);
      if PERCENT !in current {
        assert EndsClean(text, passes);
      } else if PercentDecode(current).Ok? {
        DecodeMakesProgress(current);
        assert Open(text, passes);
        SearchIsJustified(text, PercentDecode(current).value, passes + 1);
      } else if passes > 0 {
        assert EndsClean(text, passes);
      }
    }
  }

  /** The answer is given at depth `p`, the first one that is not open. */
  ghost predicate EndsAt(text: Bytes, p: nat, answer: Option<Ambiguity>) {
    p <= MAX_DECODE_PASSES + 1 && OpenUpTo(text, p) && Decoded(text, p).Some? &&
    (p <= MAX_DECODE_PASSES && Open(text, p) ==> Decoded(text, p + 1).None?) &&
    answer == Search(Decoded(text, p).value, p)
  }

  lemma EndOf(text: Bytes, answer: Option<Ambiguity>) returns (p: nat)
    requires Justified(text, answer)
    ensures EndsAt(text, p, answer)
  {
    DecodedSucc(text, 0);
    match answer {
      case None =>
        p :| EndsClean(text, p);
        DecodedSucc(text, p);
      case Some(DotSegment(_, depth)) => p := depth;
      case Some(NestedTooDeep) => p := MAX_DECODE_PASSES + 1;
      case Some(_) => p := 0;
    }
  }

  /** No two different answers are justified for the same text. */
  lemma JustifiedOnce(text: Bytes, a: Option<Ambiguity>, b: Option<Ambiguity>)
    requires Justified(text, a) && Justified(text, b)
    ensures a == b
  {
    var p := EndOf(text, a);
    var q := EndOf(text, b);
    SameEnd(text, p, a, q, b);
    SameEnd(text, q, b, p, a);
  }

  lemma SameEnd(text: Bytes, p: nat, a: Option<Ambiguity>, q: nat, b: Option<Ambiguity>)
    requires EndsAt(text, p, a) && EndsAt(text, q, b)
    ensures p >= q
  {
    assert p < q ==> Open(text, p);
    if p < q {
      UndefinedStaysUndefined(text, p + 1, q);
    }
  }

  /** The answer to a path is the one situation its decodes are in, and no other. */
  lemma ExactMeaning(path: Bytes, answer: Option<Ambiguity>)
    ensures AmbiguityOf(path) == answer <==> Justified(Before(path, QUESTION), answer)
  {
    var text := Before(path, QUESTION);
    SearchIsJustified(text, text, 0);
    if Justified(text, answer) {
      JustifiedOnce(text, answer, AmbiguityOf(path));
    }
  }

  // ---------------------------------------------------------------------------
  // A nested dot, at every depth
  // ---------------------------------------------------------------------------

  const TWO: Byte := 0x32
  const FIVE: Byte := 0x35
  const LOWER_E: Byte := 0x65

  /** `25` written `m` times: the part of a nested escape that one decode shortens by one. */
  function Nesting(m: nat): Bytes {
    if m == 0 then [] else [TWO, FIVE] + Nesting(m - 1)
  }

  /** A dot behind `m + 1` percent-decodes: `%`, `m` copies of `25`, then `2e`. */
  function NestedDot(m: nat): Bytes {
    [PERCENT] + Nesting(m) + [TWO, LOWER_E]
  }

  /** Where a segment of its own can stand between two pieces of a path without `%` and `?`. */
  ghost predicate IsFrame(before: Bytes, after: Bytes) {
    IsUtf8(before) && IsUtf8(after) &&
    PERCENT !in before && PERCENT !in after && QUESTION !in before && QUESTION !in after &&
    (before == [] || before[|before| - 1] in {SLASH, BACKSLASH}) &&
    (after == [] || after[0] in {SLASH, BACKSLASH}) &&
    DotSegmentOf(before).None? && DotSegmentOf(after).None?
  }

  lemma {:induction false} FirstDotsAppend(a: seq<Bytes>, b: seq<Bytes>)
    ensures FirstDots(a + b) == if FirstDots(a).Some? then FirstDots(a) else FirstDots(b)
  {
    if a == [] {
      assert a + b == b;
    } else {
      assert (a + b)[1..] == a[1..] + b;
      FirstDotsAppend(a[1..], b);
    }
  }

  lemma LoneSegment(middle: Bytes)
    requires SLASH !in middle && BACKSLASH !in middle && SEMICOLON !in middle
    ensures DotSegmentOf(middle) == if IsDots(middle) then Some(middle) else None
  {
    NoCut(middle, {SEMICOLON});
    NoCut(middle, {SLASH, BACKSLASH});
    assert Before(middle, SEMICOLON) == middle;
    assert Split(middle, {SLASH, BACKSLASH}) == [middle];
    var segments := [middle];
    assert segments[0] == middle && segments[1..] == [];
    assert FirstDots(segments[1..]).None?;
  }

  /** A separator cuts the search in two. */
  lemma DotSegmentOfJoin(a: Bytes, sep: Byte, b: Bytes)
    requires sep in {SLASH, BACKSLASH}
    ensures DotSegmentOf(a + [sep] + b) == if DotSegmentOf(a).Some? then DotSegmentOf(a) else DotSegmentOf(b)
  {
    var seps := {SLASH, BACKSLASH};
    SplitAtSeparator(a, sep, b, seps);
    FirstDotsAppend(Split(a, seps), Split(b, seps));
  }

  lemma EmptySegment()
    ensures DotSegmentOf([]).None?
  {
    LoneSegment([]);
  }

  lemma SegmentThenRest(middle: Bytes, after: Bytes)
    requires after == [] || after[0] in {SLASH, BACKSLASH}
    requires DotSegmentOf(after).None?
    ensures DotSegmentOf(middle + after) == DotSegmentOf(middle)
  {
    if after == [] {
      assert middle + after == middle;
    } else {
      var sep, rest := after[0], after[1..];
      assert after == [sep] + rest && [] + [sep] + rest == after;
      assert middle + after == middle + [sep] + rest;
      AroundSeparator(middle, sep, rest);
    }
  }

  lemma AroundSeparator(middle: Bytes, sep: Byte, rest: Bytes)
    requires sep in {SLASH, BACKSLASH} && DotSegmentOf([] + [sep] + rest).None?
    ensures DotSegmentOf(middle + [sep] + rest) == DotSegmentOf(middle)
  {
    EmptySegment();
    DotSegmentOfJoin([], sep, rest);
    DotSegmentOfJoin(middle, sep, rest);
  }

  lemma FrontThenRest(before: Bytes, rest: Bytes)
    requires before == [] || before[|before| - 1] in {SLASH, BACKSLASH}
    requires DotSegmentOf(before).None?
    ensures DotSegmentOf(before + rest) == DotSegmentOf(rest)
  {
    if before == [] {
      assert before + rest == rest;
    } else {
      var n := |before| - 1;
      EmptySegment();
      DotSegmentOfJoin(before[..n], before[n], []);
      assert before == before[..n] + [before[n]] + [];
      DotSegmentOfJoin(before[..n], before[n], rest);
      assert before + rest == before[..n] + [before[n]] + rest;
    }
  }

  /** In a frame, what stands in the middle is a segment of its own. */
  lemma FramedSegment(before: Bytes, middle: Bytes, after: Bytes)
    requires IsFrame(before, after)
    requires SLASH !in middle && BACKSLASH !in middle && SEMICOLON !in middle
    ensures DotSegmentOf(before + middle + after) == if IsDots(middle) then Some(middle) else None
  {
    LoneSegment(middle);
    SegmentThenRest(middle, after);
    FrontThenRest(before, middle + after);
    assert before + middle + after == before + (middle + after);
  }

  lemma {:induction false} NestingIsPlain(m: nat)
    ensures forall b :: b in Nesting(m) ==> b == TWO || b == FIVE
  {
    if m > 0 {
      NestingIsPlain(m - 1);
    }
  }

  /** What `NestedDot(m)` is after one decode. */
  function Peeled(m: nat): Bytes {
    if m == 0 then [DOT] else NestedDot(m - 1)
  }

  lemma UnescapeOne(escape: Bytes, tail: Bytes)
    requires |escape| == 3 && IsEscape(escape) && PERCENT !in tail
    ensures Unescape(escape + tail) == Some([EscapedByte(escape)] + tail)
  {
    PlainTextDecodes(tail);
    assert (escape + tail)[3..] == tail;
    assert IsEscape(escape + tail);
  }

  lemma UnescapeNestedDot(m: nat)
    ensures Unescape(NestedDot(m)) == Some(Peeled(m)) && IsUtf8(Peeled(m))
  {
    if m == 0 {
      UnescapeOne([PERCENT, TWO, LOWER_E], []);
      assert [EscapedByte([PERCENT, TWO, LOWER_E])] + [] == [DOT];
      assert NestedDot(0) == [PERCENT, TWO, LOWER_E] + [];
    } else {
      NestingIsPlain(m - 1);
      var tail := Nesting(m - 1) + [TWO, LOWER_E];
      assert NestedDot(m) == [PERCENT, TWO, FIVE] + tail;
      UnescapeOne([PERCENT, TWO, FIVE], tail);
      assert Peeled(m) == [PERCENT] + tail;
    }
    PeeledIsUtf8(m);
  }

  lemma PeeledIsUtf8(m: nat)
    ensures IsUtf8(Peeled(m))
  {
    forall i | 0 <= i < |Peeled(m)|
      ensures Peeled(m)[i] < 0x80
    {
      if m > 0 {
        NestingIsPlain(m - 1);
      }
      assert Peeled(m)[i] in Peeled(m);
    }
    AsciiIsUtf8(Peeled(m));
  }

  lemma {:induction false} UnescapeThenPlain(a: Bytes, b: Bytes)
    requires Unescape(a).Some? && PERCENT !in b
    ensures Unescape(a + b) == Some(Unescape(a).value + b)
  {
    if a == [] {
      PlainTextDecodes(b);
      assert a + b == b;
    } else {
      var n := if a[0] == PERCENT then 3 else 1;
      var head := if a[0] == PERCENT then EscapedByte(a) else a[0];
      assert (a + b)[n..] == a[n..] + b;
      UnescapeThenPlain(a[n..], b);
      PrependLaws([head], Unescape(a[n..]).value, Some(b));
    }
  }

  /** One decode takes one layer off, and leaves the frame alone. */
  lemma DecodeNestedDot(before: Bytes, m: nat, after: Bytes)
    requires IsFrame(before, after)
    ensures PercentDecode(before + NestedDot(m) + after) == Ok(before + Peeled(m) + after)
  {
    UnescapeNestedDot(m);
    UnescapeAppend(before, NestedDot(m));
    UnescapeThenPlain(before + NestedDot(m), after);
    Utf8Append(before, Peeled(m));
    Utf8Append(before + Peeled(m), after);
  }

  lemma {:induction false} PeelNestedDot(before: Bytes, m: nat, after: Bytes, j: nat)
    requires IsFrame(before, after) && j <= m
    ensures Decoded(before + NestedDot(m) + after, j) == Some(before + NestedDot(m - j) + after)
  {
    if j > 0 {
      PeelNestedDot(before, m, after, j - 1);
      DecodedSucc(before + NestedDot(m) + after, j - 1);
      DecodeNestedDot(before, m - j + 1, after);
    }
  }

  /** Every layer still hides the dot: the search is open at that depth. */
  lemma NestedDotIsOpen(before: Bytes, m: nat, after: Bytes, j: nat)
    requires IsFrame(before, after) && j <= m
    ensures Open(before + NestedDot(m) + after, j)
  {
    var layer := NestedDot(m - j);
    PeelNestedDot(before, m, after, j);
    NestingIsPlain(m - j);
    FramedSegment(before, layer, after);
    assert layer[0] == PERCENT;
    assert (before + layer + after)[|before|] == PERCENT;
  }

  lemma NestedDotIsOpenUpTo(before: Bytes, m: nat, after: Bytes)
    requires IsFrame(before, after)
    ensures OpenUpTo(before + NestedDot(m) + after, m + 1)
    ensures Decoded(before + NestedDot(m) + after, m + 1) == Some(before + [DOT] + after)
    ensures Before(before + NestedDot(m) + after, QUESTION) == before + NestedDot(m) + after
  {
    NestingIsPlain(m);
    NoCut(before + NestedDot(m) + after, {QUESTION});
    forall j: nat | j <= m
      ensures Open(before + NestedDot(m) + after, j)
    {
      NestedDotIsOpen(before, m, after, j);
    }
    PeelNestedDot(before, m, after, m);
    DecodedSucc(before + NestedDot(m) + after, m);
    DecodeNestedDot(before, 0, after);
  }

  /** A dot nested `m` deep is found at pass `m + 1` as long as the bound allows that many. */
  lemma NestedDotIsFound(before: Bytes, m: nat, after: Bytes)
    requires IsFrame(before, after) && m <= 7
    ensures AmbiguityOf(before + NestedDot(m) + after) == Some(DotSegment([0x2E], m + 1))
  {
    NestedDotIsOpenUpTo(before, m, after);
    FramedSegment(before, [DOT], after);
    ExactMeaning(before + NestedDot(m) + after, Some(DotSegment([DOT], m + 1)));
  }

  /** Every deeper one is refused as nested too deep, however deep. */
  lemma NestedDotIsTooDeep(before: Bytes, m: nat, after: Bytes)
    requires IsFrame(before, after) && m >= 8
    ensures AmbiguityOf(before + NestedDot(m) + after) == Some(NestedTooDeep)
  {
    var text := before + NestedDot(m) + after;
    NestedDotIsOpenUpTo(before, m, after);
    if m > MAX_DECODE_PASSES {
      assert Open(text, MAX_DECODE_PASSES + 1);
    }
    ExactMeaning(text, Some(NestedTooDeep));
  }

  // ---------------------------------------------------------------------------
  // A dot segment, however it is written
  // ---------------------------------------------------------------------------

  lemma {:induction false} WrittenDotsAreOneSegment(dots: Bytes, ws: seq<Writing>)
    requires AreWritings(dots, ws) && forall i :: 0 <= i < |dots| ==> dots[i] == 0x2E
    ensures SLASH !in Write(dots, ws) && BACKSLASH !in Write(dots, ws) && SEMICOLON !in Write(dots, ws)
    ensures QUESTION !in Write(dots, ws)
    ensures (exists i :: 0 <= i < |ws| && ws[i].Triplet?) <==> PERCENT in Write(dots, ws)
    ensures (forall i :: 0 <= i < |ws| ==> ws[i].Plain?) ==> Write(dots, ws) == dots
  {
    if dots != [] {
      var rest := ws[1..];
      WrittenDotsAreOneSegment(dots[1..], rest);
      WrittenDot(ws[0]);
      assert forall i :: 0 <= i < |rest| ==> rest[i] == ws[i + 1];
      assert forall i :: 0 < i < |ws| ==> ws[i] == rest[i - 1];
    }
  }

  lemma WrittenDot(w: Writing)
    requires IsWriting(w)
    ensures forall b :: b in WriteByte(0x2E, w) ==> b in {0x2E, 0x25, 0x32, 0x65, 0x45}
    ensures w.Triplet? <==> 0x25 in WriteByte(0x2E, w)
  {
  }

  lemma NoQuery(text: Bytes)
    requires QUESTION !in text
    ensures Before(text, QUESTION) == text
  {
    NoCut(text, {QUESTION});
    assert text[..|text|] == text;
  }

  lemma FoundAtOnce(text: Bytes, segment: Bytes)
    requires QUESTION !in text && DotSegmentOf(text) == Some(segment)
    ensures AmbiguityOf(text) == Some(DotSegment(segment, 0))
  {
    NoQuery(text);
  }

  lemma FoundAtFirst(text: Bytes, next: Bytes, segment: Bytes)
    requires QUESTION !in text && PERCENT in text && DotSegmentOf(text).None?
    requires PercentDecode(text) == Ok(next) && DotSegmentOf(next) == Some(segment)
    ensures AmbiguityOf(text) == Some(DotSegment(segment, 1))
  {
    NoQuery(text);
    DecodeMakesProgress(text);
    assert Search(next, 1) == Some(DotSegment(segment, 1));
  }

  /** `.` and `..`, written in any way that has a triplet in it, standing as a segment of its own in any clean
      path, are found at the first decode; written as they are, at none. */
  lemma WrittenDotsAreFound(before: Bytes, dots: Bytes, ws: seq<Writing>, after: Bytes)
    requires IsFrame(before, after) && (dots == [0x2E] || dots == [0x2E, 0x2E]) && AreWritings(dots, ws)
    ensures AmbiguityOf(before + Write(dots, ws) + after) ==
            Some(DotSegment(dots, if exists i :: 0 <= i < |ws| && ws[i].Triplet? then 1 else 0))
  {
    var middle := Write(dots, ws);
    var text := before + middle + after;
    WrittenDotsAreOneSegment(dots, ws);
    FramedSegment(before, middle, after);
    FramedSegment(before, dots, after);
    if PERCENT in middle {
      AsciiIsUtf8(dots);
      WrittenInFrame(before, dots, ws, after);
      assert DOT !in [PERCENT] && !IsDots(middle);
      FoundAtFirst(text, before + dots + after, dots);
    } else {
      FoundAtOnce(text, dots);
    }
  }

  lemma WrittenInFrame(before: Bytes, dots: Bytes, ws: seq<Writing>, after: Bytes)
    requires IsFrame(before, after) && AreWritings(dots, ws) && IsUtf8(dots)
    ensures PercentDecode(before + Write(dots, ws) + after) == Ok(before + dots + after)
  {
    var middle := Write(dots, ws);
    PlainTextDecodes(after);
    WrittenIsRead(dots, ws, after);
    UnescapeAppend(before, middle + after);
    assert before + middle + after == before + (middle + after);
    assert before + (dots + after) == before + dots + after;
    Utf8Append(before, dots);
    Utf8Append(before + dots, after);
  }
}
