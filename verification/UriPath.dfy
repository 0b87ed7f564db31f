/** What an origin makes of a path: `remove_dot_segments`, as the two-buffer algorithm of section
    5.2.4 of RFC 3986, after an optional folding of `\` onto `/` and an optional removal of
    `;`-parameters. A path the ambiguity check lets through is one all of these leave alone. */
module UriPath {
  import opened Wrappers
  import opened Utf8
  import opened Splitting
  import opened EndpointPath

  /** The output buffer without its last segment and that segment's slash, if any. */
  function DropLastSegment(output: Bytes): (r: Bytes)
    ensures |r| <= |output|
  {
    if output == [] then []
    else if output[|output| - 1] == SLASH then output[..|output| - 1]
    else DropLastSegment(output[..|output| - 1])
  }

  /** The length of the first segment: its slash, if it has one, and everything up to the next. */
  function FirstSegment(input: Bytes): (n: nat)
    requires input != []
    ensures 0 < n <= |input|
  {
    if input[0] == SLASH then 1 + Cut(input[1..], {SLASH}) else Cut(input, {SLASH})
  }

  /** Steps A to E of the algorithm, on the input and the output buffer. */
  function Remove(input: Bytes, output: Bytes): Bytes
    decreases |input|
  {
    if input == [] then output
    else if [DOT, DOT, SLASH] <= input then Remove(input[3..], output)
    else if [DOT, SLASH] <= input then Remove(input[2..], output)
    else if [SLASH, DOT, SLASH] <= input then Remove([SLASH] + input[3..], output)
    else if input == [SLASH, DOT] then Remove([SLASH], output)
    else if [SLASH, DOT, DOT, SLASH] <= input then
      Remove([SLASH] + input[4..], DropLastSegment(output))
    else if input == [SLASH, DOT, DOT] then Remove([SLASH], DropLastSegment(output))
    else if IsDots(input) then Remove([], output)
    else
      var n := FirstSegment(input);
      Remove(input[n..], output + input[..n])
  }

  function RemoveDotSegments(path: Bytes): Bytes {
    Remove(path, [])
  }

  /** Some segment between slashes is `.` or `..`. */
  predicate HasDotSegment(s: Bytes) {
    var n := Cut(s, {SLASH});
    IsDots(s[..n]) || (n < |s| && HasDotSegment(s[n + 1..]))
  }

  // ---------------------------------------------------------------------------
  // remove_dot_segments leaves exactly the paths without a dot segment alone
  // ---------------------------------------------------------------------------

  lemma {:induction false} RemoveNeverGrows(input: Bytes, output: Bytes)
    ensures |Remove(input, output)| <= |input| + |output|
    decreases |input|
  {
    if input == [] {
    } else if [DOT, DOT, SLASH] <= input {
      RemoveNeverGrows(input[3..], output);
    } else if [DOT, SLASH] <= input {
      RemoveNeverGrows(input[2..], output);
    } else if [SLASH, DOT, SLASH] <= input {
      RemoveNeverGrows([SLASH] + input[3..], output);
    } else if input == [SLASH, DOT] {
      RemoveNeverGrows([SLASH], output);
    } else if [SLASH, DOT, DOT, SLASH] <= input {
      RemoveNeverGrows([SLASH] + input[4..], DropLastSegment(output));
    } else if input == [SLASH, DOT, DOT] {
      RemoveNeverGrows([SLASH], DropLastSegment(output));
    } else if IsDots(input) {
      RemoveNeverGrows([], output);
    } else {
      var n := FirstSegment(input);
      RemoveNeverGrows(input[n..], output + input[..n]);
    }
  }

  /** Steps A to D apply: the input buffer starts with a dot segment. */
  predicate AtDots(input: Bytes) {
    var start := if input != [] && input[0] == SLASH then 1 else 0;
    IsDots(input[start..][..Cut(input[start..], {SLASH})])
  }

  lemma DotsAtHead(input: Bytes)
    requires input != []
    ensures AtDots(input) <==>
            [DOT, DOT, SLASH] <= input || [DOT, SLASH] <= input ||
            [SLASH, DOT, SLASH] <= input || input == [SLASH, DOT] ||
            [SLASH, DOT, DOT, SLASH] <= input || input == [SLASH, DOT, DOT] || IsDots(input)
  {
    var start := if input[0] == SLASH then 1 else 0;
    DotsBeforeSlash(input[start..]);
    if start == 1 {
      assert input == [SLASH] + input[1..];
      assert [SLASH, DOT, SLASH] <= input <==> [DOT, SLASH] <= input[1..];
      assert [SLASH, DOT, DOT, SLASH] <= input <==> [DOT, DOT, SLASH] <= input[1..];
    } else {
      assert input[0..] == input;
    }
  }

  lemma DotsBeforeSlash(s: Bytes)
    ensures IsDots(s[..Cut(s, {SLASH})]) <==>
            [DOT, DOT, SLASH] <= s || [DOT, SLASH] <= s || IsDots(s)
  {
    var n := Cut(s, {SLASH});
    if IsDots(s[..n]) {
      assert forall i :: 0 <= i < n ==> s[i] == DOT by {
        assert forall i :: 0 <= i < n ==> s[i] == s[..n][i];
      }
      assert n == |s| ==> s[..n] == s;
    } else {
      assert |s| >= 1 && s[0] == DOT ==> s[..1] == [DOT];
      assert |s| >= 2 && s[0] == s[1] == DOT ==> s[..2] == [DOT, DOT];
    }
  }

  lemma DotsShrink(input: Bytes, output: Bytes)
    requires input != [] && AtDots(input)
    ensures |Remove(input, output)| < |input| + |output|
  {
    DotsAtHead(input);
    if [DOT, DOT, SLASH] <= input {
      RemoveNeverGrows(input[3..], output);
    } else if [DOT, SLASH] <= input {
      RemoveNeverGrows(input[2..], output);
    } else if [SLASH, DOT, SLASH] <= input {
      RemoveNeverGrows([SLASH] + input[3..], output);
    } else if input == [SLASH, DOT] {
      RemoveNeverGrows([SLASH], output);
    } else if [SLASH, DOT, DOT, SLASH] <= input {
      RemoveNeverGrows([SLASH] + input[4..], DropLastSegment(output));
    } else if input == [SLASH, DOT, DOT] {
      RemoveNeverGrows([SLASH], DropLastSegment(output));
    } else {
      RemoveNeverGrows([], output);
    }
  }

  /** What is left after the first segment was moved has the remaining segments. */
  lemma MoveSegment(input: Bytes)
    requires input != [] && !AtDots(input)
    ensures var rest := input[FirstSegment(input)..];
            (rest == [] || rest[0] == SLASH) && (HasDotSegment(input) <==> HasDotSegment(rest))
  {
    var n := FirstSegment(input);
    var rest := input[n..];
    var start := if input[0] == SLASH then 1 else 0;
    var body := input[start..];
    var k := Cut(body, {SLASH});
    assert n == start + k && rest == body[k..];
    if start == 1 {
      assert Cut(input, {SLASH}) == 0 && input[..0] == [];
      assert HasDotSegment(input) <==> HasDotSegment(body);
    } else {
      assert body == input;
    }
    if rest != [] {
      assert rest[0] == SLASH && Cut(rest, {SLASH}) == 0 && rest[..0] == [];
      assert rest[1..] == body[k + 1..];
    }
  }

  lemma DotsCount(input: Bytes)
    requires input != [] && AtDots(input)
    ensures HasDotSegment(input)
  {
    if input[0] == SLASH {
      assert Cut(input, {SLASH}) == 0 && input[..0] == [];
      assert HasDotSegment(input[1..]);
    } else {
      assert input[0..] == input;
    }
  }

  lemma StepE(input: Bytes, output: Bytes)
    requires input != [] && !AtDots(input)
    ensures Remove(input, output) == Remove(input[FirstSegment(input)..], output + input[..FirstSegment(input)])
  {
    DotsAtHead(input);
  }

  /** What the algorithm makes of the buffers, by whether the input has a dot segment. */
  ghost predicate Kept(dotted: bool, result: Bytes, input: Bytes, output: Bytes) {
    if dotted then |result| < |input| + |output| else result == output + input
  }

  lemma MovingKeeps(dotted: bool, result: Bytes, input: Bytes, output: Bytes, n: nat)
    requires n <= |input| && Kept(dotted, result, input[n..], output + input[..n])
    ensures Kept(dotted, result, input, output)
  {
    assert output + input[..n] + input[n..] == output + input;
  }

  lemma {:induction false} RemoveKeeps(input: Bytes, output: Bytes)
    ensures Kept(HasDotSegment(input), Remove(input, output), input, output)
    decreases |input|
  {
    if input == [] {
      assert output + input == output;
    } else if AtDots(input) {
      DotsShrink(input, output);
      DotsCount(input);
    } else {
      var n := FirstSegment(input);
      StepE(input, output);
      MoveSegment(input);
      RemoveKeeps(input[n..], output + input[..n]);
      MovingKeeps(HasDotSegment(input), Remove(input, output), input, output, n);
    }
  }

  /** The algorithm changes a path exactly when the path has a dot segment. */
  lemma RemoveDotSegmentsIsIdentity(s: Bytes)
    ensures RemoveDotSegments(s) == s <==> !HasDotSegment(s)
  {
    RemoveKeeps(s, []);
    assert [] + s == s;
  }

  // ---------------------------------------------------------------------------
  // What dot removal makes of the segments
  // ---------------------------------------------------------------------------

  lemma DropUndoes(output: Bytes, segment: Bytes)
    requires 0x2F !in segment
    ensures DropLastSegment(output + [0x2F] + segment) == output
  {
    if segment == [] {
      assert (output + [0x2F] + segment)[..|output|] == output;
    } else {
      var init := segment[..|segment| - 1];
      assert (output + [0x2F] + segment)[..|output| + |segment|] == output + [0x2F] + init;
      DropUndoes(output, init);
    }
  }

  lemma CutBehind(segment: Bytes, more: Bytes)
    requires 0x2F !in segment && (more == [] || more[0] == 0x2F)
    ensures Cut(segment + more, {SLASH}) == |segment|
  {
    CutAppend(segment, more, {SLASH});
    NoCut(segment, {SLASH});
  }

  /** A segment in front of a slash moves to the output buffer as it is. */
  lemma SegmentMoves(segment: Bytes, more: Bytes, output: Bytes)
    requires 0x2F !in segment && segment != [0x2E] && segment != [0x2E, 0x2E] && (more == [] || more[0] == 0x2F)
    ensures Remove([0x2F] + segment + more, output) == Remove(more, output + [0x2F] + segment)
  {
    var input, moved := [0x2F] + segment + more, output + [0x2F] + segment;
    assert input[1..] == segment + more;
    CutBehind(segment, more);
    assert input[1..][..|segment|] == segment;
    NotDots(input, segment);
    assert input[1 + |segment|..] == more && output + input[..1 + |segment|] == moved;
    MoveBy(input, output, 1 + |segment|, more, moved);
  }

  lemma MoveBy(input: Bytes, output: Bytes, n: nat, more: Bytes, moved: Bytes)
    requires input != [] && !AtDots(input) && FirstSegment(input) == n
    requires input[n..] == more && output + input[..n] == moved
    ensures Remove(input, output) == Remove(more, moved)
  {
    StepE(input, output);
  }

  lemma NotDots(input: Bytes, segment: Bytes)
    requires input != [] && input[0] == 0x2F && Cut(input[1..], {SLASH}) == |segment|
    requires input[1..][..|segment|] == segment && segment != [0x2E] && segment != [0x2E, 0x2E]
    ensures !AtDots(input) && FirstSegment(input) == 1 + |segment|
  {
  }

  /** `/segment/..` goes, wherever the input buffer comes to it, and whatever else is in the buffers. */
  lemma UpTakesASegment(segment: Bytes, rest: Bytes, output: Bytes)
    requires 0x2F !in segment && segment != [0x2E] && segment != [0x2E, 0x2E]
    ensures Remove([0x2F] + segment + ([0x2F, 0x2E, 0x2E, 0x2F] + rest), output) == Remove([0x2F] + rest, output)
  {
    SegmentMoves(segment, [0x2F, 0x2E, 0x2E, 0x2F] + rest, output);
    UpAlone(rest, output + [0x2F] + segment);
    DropUndoes(output, segment);
  }

  /** `/..` takes the last segment of the output buffer, if there is one. */
  lemma UpAlone(rest: Bytes, output: Bytes)
    ensures Remove([0x2F, 0x2E, 0x2E, 0x2F] + rest, output) == Remove([0x2F] + rest, DropLastSegment(output))
  {
    var input := [0x2F, 0x2E, 0x2E, 0x2F] + rest;
    assert input[4..] == rest && [SLASH, DOT, DOT, SLASH] <= input;
    assert input[0] == SLASH && input[1] == DOT && input[2] == DOT;
  }

  lemma HereAlone(rest: Bytes, output: Bytes)
    ensures Remove([0x2F, 0x2E, 0x2F] + rest, output) == Remove([0x2F] + rest, output)
  {
    var input := [0x2F, 0x2E, 0x2F] + rest;
    assert input[3..] == rest && [SLASH, DOT, SLASH] <= input;
    assert input[0] == SLASH && input[1] == DOT;
  }

  /** The example of section 5.2.4: `/a/b/c/./../../g` becomes `/a/g`. */
  lemma RemoveExample()
    ensures RemoveDotSegments([0x2F, 0x61, 0x2F, 0x62, 0x2F, 0x63, 0x2F, 0x2E, 0x2F, 0x2E, 0x2E, 0x2F, 0x2E, 0x2E,
                               0x2F, 0x67]) == [0x2F, 0x61, 0x2F, 0x67]
  {
    var a, b, c, g: Bytes := [0x61], [0x62], [0x63], [0x67];
    var up: Bytes := [0x2E, 0x2E, 0x2F];
    var fromUp := up + g;
    var fromHere := [0x2F, 0x2E, 0x2F] + (up + fromUp);
    var path: Bytes := [0x2F] + a + ([0x2F] + b + ([0x2F] + c + fromHere));
    assert path == [0x2F, 0x61, 0x2F, 0x62, 0x2F, 0x63, 0x2F, 0x2E, 0x2F, 0x2E, 0x2E, 0x2F, 0x2E, 0x2E, 0x2F, 0x67];
    SegmentMoves(a, [0x2F] + b + ([0x2F] + c + fromHere), []);
    SegmentMoves(b, [0x2F] + c + fromHere, [] + [0x2F] + a);
    SegmentMoves(c, fromHere, [] + [0x2F] + a + [0x2F] + b);
    RemoveTail([] + [0x2F] + a + [0x2F] + b + [0x2F] + c, a, b, c, fromHere);
  }

  lemma RemoveTail(output: Bytes, a: Bytes, b: Bytes, c: Bytes, fromHere: Bytes)
    requires a == [0x61] && b == [0x62] && c == [0x63] && output == [] + [0x2F] + a + [0x2F] + b + [0x2F] + c
    requires fromHere == [0x2F, 0x2E, 0x2F] + ([0x2E, 0x2E, 0x2F] + ([0x2E, 0x2E, 0x2F] + [0x67]))
    ensures Remove(fromHere, output) == [0x2F, 0x61, 0x2F, 0x67]
  {
    var once: Bytes := [0x2E, 0x2E, 0x2F] + [0x67];
    HereAlone([0x2E, 0x2E, 0x2F] + once, output);
    assert [0x2F] + ([0x2E, 0x2E, 0x2F] + once) == [0x2F, 0x2E, 0x2E, 0x2F] + once;
    UpAlone(once, output);
    DropUndoes([] + [0x2F] + a + [0x2F] + b, c);
    assert [0x2F] + once == [0x2F, 0x2E, 0x2E, 0x2F] + [0x67];
    UpAlone([0x67], [] + [0x2F] + a + [0x2F] + b);
    DropUndoes([] + [0x2F] + a, b);
    SegmentMoves([0x67], [], [] + [0x2F] + a);
    assert [0x2F] + [0x67] + [] == [0x2F] + [0x67];
  }

  // ---------------------------------------------------------------------------
  // The views an origin may take of a path first
  // ---------------------------------------------------------------------------

  /** `\` folded onto `/`, as the WHATWG URL standard does for http. */
  function Fold(s: Bytes): Bytes {
    seq(|s|, i requires 0 <= i < |s| => if s[i] == BACKSLASH then SLASH else s[i])
  }

  /** Every segment cut off at its first `;`. */
  function StripParameters(s: Bytes): Bytes {
    var n := Cut(s, {SLASH});
    Before(s[..n], SEMICOLON) + if n == |s| then [] else [SLASH] + StripParameters(s[n + 1..])
  }

  /** The path as an origin sees it that folds backslashes, strips parameters, both or neither. */
  function View(s: Bytes, fold: bool, strip: bool): Bytes {
    var folded := if fold then Fold(s) else s;
    if strip then StripParameters(folded) else folded
  }

  function Separators(fold: bool): set<Byte> {
    if fold then {SLASH, BACKSLASH} else {SLASH}
  }

  /** A segment is dotted in that view; said of the path itself. */
  predicate HasDotsIn(s: Bytes, fold: bool, strip: bool) {
    var n := Cut(s, Separators(fold));
    IsDots(if strip then Before(s[..n], SEMICOLON) else s[..n]) ||
    (n < |s| && HasDotsIn(s[n + 1..], fold, strip))
  }

  lemma {:induction false} FoldCut(s: Bytes)
    ensures Cut(Fold(s), {SLASH}) == Cut(s, {SLASH, BACKSLASH})
  {
    if s != [] && s[0] != SLASH && s[0] != BACKSLASH {
      FoldCut(s[1..]);
      assert Fold(s)[1..] == Fold(s[1..]);
    }
  }

  lemma FoldParts(s: Bytes)
    ensures Cut(Fold(s), {SLASH}) == Cut(s, {SLASH, BACKSLASH})
    ensures var n := Cut(s, {SLASH, BACKSLASH});
            Fold(s)[..n] == s[..n] && (n < |s| ==> Fold(s)[n + 1..] == Fold(s[n + 1..]))
  {
    FoldCut(s);
    var n := Cut(s, {SLASH, BACKSLASH});
    forall i | 0 <= i < n
      ensures Fold(s)[i] == s[i]
    {
      assert s[i] !in {SLASH, BACKSLASH};
    }
    assert Fold(s)[..n] == s[..n];
    if n < |s| {
      FoldSuffix(s, n + 1);
    }
  }

  lemma FoldSuffix(s: Bytes, m: nat)
    requires m <= |s|
    ensures Fold(s)[m..] == Fold(s[m..])
  {
  }

  lemma {:induction false} FoldView(s: Bytes, strip: bool)
    ensures HasDotsIn(Fold(s), false, strip) <==> HasDotsIn(s, true, strip)
    decreases |s|
  {
    FoldParts(s);
    var n := Cut(s, {SLASH, BACKSLASH});
    assert Separators(true) == {SLASH, BACKSLASH} && Separators(false) == {SLASH};
    assert Cut(Fold(s), Separators(false)) == n && |Fold(s)| == |s|;
    if n < |s| {
      FoldView(s[n + 1..], strip);
      SameHead(Fold(s), false, s, true, strip, n);
    }
  }

  /** Two paths whose first segments and whose rests agree, agree. */
  lemma SameHead(a: Bytes, foldA: bool, b: Bytes, foldB: bool, strip: bool, n: nat)
    requires n < |a| == |b| && Cut(a, Separators(foldA)) == n && Cut(b, Separators(foldB)) == n && a[..n] == b[..n]
    requires HasDotsIn(a[n + 1..], foldA, strip) <==> HasDotsIn(b[n + 1..], foldB, strip)
    ensures HasDotsIn(a, foldA, strip) <==> HasDotsIn(b, foldB, strip)
  {
  }

  lemma {:induction false} StripView(s: Bytes)
    ensures HasDotSegment(StripParameters(s)) <==> HasDotsIn(s, false, true)
    decreases |s|
  {
    var n := Cut(s, {SLASH});
    var head := Before(s[..n], SEMICOLON);
    NoCut(head, {SLASH});
    if n == |s| {
      assert StripParameters(s) == head;
      assert head[..|head|] == head;
    } else {
      var tail := StripParameters(s[n + 1..]);
      StripView(s[n + 1..]);
      CutAppend(head, [SLASH] + tail, {SLASH});
      assert StripParameters(s) == head + ([SLASH] + tail);
      assert StripParameters(s)[..|head|] == head;
      assert StripParameters(s)[|head| + 1..] == tail;
    }
  }

  lemma {:induction false} PlainView(s: Bytes)
    ensures HasDotSegment(s) <==> HasDotsIn(s, false, false)
    decreases |s|
  {
    var n := Cut(s, {SLASH});
    if n < |s| {
      PlainView(s[n + 1..]);
    }
  }

  lemma ViewHasDots(s: Bytes, fold: bool, strip: bool)
    ensures HasDotSegment(View(s, fold, strip)) <==> HasDotsIn(s, fold, strip)
  {
    var folded := if fold then Fold(s) else s;
    if fold {
      FoldView(s, strip);
    }
    if strip {
      StripView(folded);
    } else {
      PlainView(folded);
    }
  }

  /** The check's own search is the view that folds and strips. */
  lemma {:induction false} CheckSeesBothQuirks(s: Bytes)
    ensures DotSegmentOf(s).Some? <==> HasDotsIn(s, true, true)
    decreases |s|
  {
    var n := Cut(s, {SLASH, BACKSLASH});
    if n < |s| {
      CheckSeesBothQuirks(s[n + 1..]);
      var rest := Split(s[n + 1..], {SLASH, BACKSLASH});
      assert ([s[..n]] + rest)[1..] == rest;
    } else {
      assert [s[..n]][1..] == [];
      assert s[..n] == s;
      assert FirstDots([s][1..]).None?;
    }
  }

  /** A separator in front of a dotted rest does not hide it. */
  lemma {:induction false} DotsBehindSeparator(s: Bytes, m: nat)
    requires m < |s| && s[m] in {SLASH, BACKSLASH}
    requires HasDotsIn(s[m + 1..], true, true)
    ensures HasDotsIn(s, true, true)
    decreases |s|
  {
    var n := Cut(s, {SLASH, BACKSLASH});
    assert n <= m;
    if n < m {
      assert s[n + 1..][m - n - 1 + 1..] == s[m + 1..];
      DotsBehindSeparator(s[n + 1..], m - n - 1);
    }
    DotsInTheRest(s, n);
  }

  lemma DotsInTheRest(s: Bytes, n: nat)
    requires n == Cut(s, {SLASH, BACKSLASH}) < |s| && HasDotsIn(s[n + 1..], true, true)
    ensures HasDotsIn(s, true, true)
  {
    assert Separators(true) == {SLASH, BACKSLASH};
  }

  /** Folding and stripping only ever bring dot segments out. */
  lemma {:induction false} QuirksOnlyAdd(s: Bytes, fold: bool, strip: bool)
    requires HasDotsIn(s, fold, strip)
    ensures HasDotsIn(s, true, true)
    decreases |s|
  {
    var n := Cut(s, Separators(fold));
    var segment := if strip then Before(s[..n], SEMICOLON) else s[..n];
    if IsDots(segment) {
      HeadDots(s, n, segment);
    } else {
      QuirksOnlyAdd(s[n + 1..], fold, strip);
      DotsBehindSeparator(s, n);
    }
  }

  /** A dotted head that ends at a slash, a parameter or the end of the path. */
  lemma HeadDots(s: Bytes, n: nat, segment: Bytes)
    requires n <= |s| && (n == |s| || s[n] in {SLASH, BACKSLASH})
    requires segment == s[..n] || segment == Before(s[..n], SEMICOLON)
    requires IsDots(segment)
    ensures HasDotsIn(s, true, true)
  {
    var k := |segment|;
    assert segment == s[..k];
    assert forall i :: 0 <= i < k ==> s[i] == segment[i] == DOT;
    assert k < n ==> s[k] == s[..n][k] == SEMICOLON;
    var m := Cut(s, {SLASH, BACKSLASH});
    assert k <= m <= n;
    DotsThenParameter(s[..m], k);
    assert s[..m][..k] == s[..k];
  }

  /** Dots up to the end, or up to a parameter, are what is left without parameters. */
  lemma DotsThenParameter(s: Bytes, k: nat)
    requires k <= |s| && (forall i :: 0 <= i < k ==> s[i] == DOT) && (k < |s| ==> s[k] == SEMICOLON)
    ensures Before(s, SEMICOLON) == s[..k]
  {
    var n := Cut(s, {SEMICOLON});
    assert n == k;
  }

  /** The check is silent about a path exactly when every view of it survives dot removal. */
  lemma SilentMeansStable(s: Bytes)
    ensures DotSegmentOf(s).None? <==>
            forall fold, strip :: RemoveDotSegments(View(s, fold, strip)) == View(s, fold, strip)
  {
    CheckSeesBothQuirks(s);
    forall fold, strip
      ensures RemoveDotSegments(View(s, fold, strip)) == View(s, fold, strip) <==> !HasDotsIn(s, fold, strip)
      ensures HasDotsIn(s, fold, strip) ==> HasDotsIn(s, true, true)
    {
      ViewHasDots(s, fold, strip);
      RemoveDotSegmentsIsIdentity(View(s, fold, strip));
      if HasDotsIn(s, fold, strip) {
        QuirksOnlyAdd(s, fold, strip);
      }
    }
    assert DotSegmentOf(s).Some? ==> RemoveDotSegments(View(s, true, true)) != View(s, true, true);
  }

  // ---------------------------------------------------------------------------
  // The guarantee
  // ---------------------------------------------------------------------------

  /** A path that is let through shows no dot segment at any decode depth, however deep. */
  lemma {:induction false} CleanAtEveryDepth(path: Bytes, k: nat)
    requires IsUtf8(path) && AmbiguityOf(path).None?
    requires Decoded(Before(path, QUESTION), k).Some?
    ensures DotSegmentOf(Decoded(Before(path, QUESTION), k).value).None?
  {
    var text := Before(path, QUESTION);
    RoutingPartIsUtf8(path);
    ExactMeaning(path, None);
    var p: nat :| EndsClean(text, p);
    if k < p {
      assert Open(text, k);
    } else if PERCENT !in Decoded(text, p).value {
      PlainStaysPlain(text, p, k);
    } else if k > p {
      UndefinedStaysUndefined(text, p + 1, k);
    }
  }

  /** Whatever number of times the routing part is decoded downstream, and whichever of the two
      quirks the origin has, removing dot segments leaves the path alone. */
  lemma LetThroughMeansUnambiguous(path: Bytes, k: nat, fold: bool, strip: bool)
    requires IsUtf8(path) && AmbiguityOf(path).None?
    requires Decoded(Before(path, QUESTION), k).Some?
    ensures var seen := View(Decoded(Before(path, QUESTION), k).value, fold, strip);
            RemoveDotSegments(seen) == seen
  {
    CleanAtEveryDepth(path, k);
    SilentMeansStable(Decoded(Before(path, QUESTION), k).value);
  }

  /** And a path refused for a dot segment is one that some origin does resolve elsewhere: one that
      decodes as often as the refusal says, folds backslashes and strips parameters. */
  lemma RefusedForDotsMeansAmbiguous(path: Bytes, segment: Bytes, passes: nat)
    requires AmbiguityOf(path) == Some(DotSegment(segment, passes))
    ensures Decoded(Before(path, QUESTION), passes).Some?
    ensures var seen := View(Decoded(Before(path, QUESTION), passes).value, true, true);
            RemoveDotSegments(seen) != seen
  {
    ExactMeaning(path, Some(DotSegment(segment, passes)));
    var text := Decoded(Before(path, QUESTION), passes).value;
    CheckSeesBothQuirks(text);
    ViewHasDots(text, true, true);
    RemoveDotSegmentsIsIdentity(View(text, true, true));
  }
}
