/** Loading a policy directory from a listing of it: which entries are read, in which order, what is fed
    to the digest, and which set of policies comes out. */
module Loader {
  import opened Wrappers
  import opened Utf8
  import opened Splitting
  import opened PolicyFiles
  import opened Sorting
  import opened ContentDigest

  const COLON: Byte := 0x3A

  /** A regular file: its bytes, or the error reading it gives. */
  datatype FileState = Readable(bytes: Bytes) | Unreadable(message: string)

  /** One parsed policy, with its `@id` if it has one. */
  datatype Parsed<P> = Parsed(annotation: Option<Bytes>, policy: P)

  /** What the parser makes of a file's text. */
  type Parser<!P> = Bytes -> Result<seq<Parsed<P>>, string>

  /** The schema validation of a whole set. */
  type Validator<!P> = map<Bytes, P> -> bool

  datatype LoadError =
    | Enumeration(source: string)
    | ReadFailed(name: Bytes, message: string)
    | NotText(name: Bytes)
    | ParseFailed(name: Bytes, message: string)
    | DuplicateId(name: Bytes, id: Bytes)
    | NoPolicies
    | Invalid

  datatype Loaded<P> = Loaded(policies: map<Bytes, P>, generation: nat, files: seq<Bytes>, hashed: Bytes)

  type Listing = seq<Result<Bytes, string>>

  /** The entry is loaded: a `.cedar` name that is not skipped, of a regular file. */
  predicate IsLoaded(name: Bytes, dir: map<Bytes, FileState>) {
    HasCedarExtension(name) && IsLoadableName(name) && name in dir
  }

  /** The names to load, in listing order; the first enumeration error ends the load. */
  function Collect(listing: Listing, dir: map<Bytes, FileState>): Result<seq<Bytes>, LoadError> {
    if listing == [] then Ok([])
    else match listing[0]
         case Err(source) => Err(Enumeration(source))
         case Ok(name) =>
           (match Collect(listing[1..], dir)
            case Err(e) => Err(e)
            case Ok(rest) => Ok(if IsLoaded(name, dir) then [name] + rest else rest))
  }

  function Decimal(n: nat): Bytes {
    if n < 10 then [0x30 + n] else Decimal(n / 10) + [0x30 + n % 10]
  }

  /** `<stem>:<@id or ordinal>`. */
  function PolicyId<P>(stem: Bytes, p: Parsed<P>, ordinal: nat): Bytes {
    stem + [COLON] + (match p.annotation case Some(a) => a case None => Decimal(ordinal))
  }

  /** The stem is the text in front of an id's first colon exactly when it has no colon itself. */
  lemma IdNamesItsStem<P>(stem: Bytes, p: Parsed<P>, ordinal: nat)
    ensures Before(PolicyId(stem, p, ordinal), 0x3A) == stem <==> 0x3A !in stem
  {
    var id := PolicyId(stem, p, ordinal);
    assert id[..|stem|] == stem && id[|stem|] == COLON;
    var n := Cut(id, {COLON});
    if COLON in stem {
      var i :| 0 <= i < |stem| && stem[i] == COLON;
      assert id[i] == COLON;
    } else {
      assert n >= |stem|;
    }
  }

  /** An unannotated policy of `a:b.cedar` and one of `a.cedar` with an `@id` can bear the same id. */
  lemma IdsCollide<P>(a: Bytes, b: Bytes, n: nat, m: nat, p: P, q: P)
    requires a != []
    ensures var first, second := a + [COLON] + b + [DOT] + CEDAR, a + [DOT] + CEDAR;
            first != second && HasCedarExtension(first) && HasCedarExtension(second) &&
            PolicyId(Stem(first), Parsed(None, p), n) ==
            PolicyId(Stem(second), Parsed(Some(b + [COLON] + Decimal(n)), q), m)
  {
    StemOfName(a + [COLON] + b);
    StemOfName(a);
    assert (a + [COLON] + b) + [COLON] + Decimal(n) == a + [COLON] + (b + [COLON] + Decimal(n));
  }

  /** The number that decimal digits stand for. */
  function FromDecimal(digits: Bytes): int {
    if digits == [] then 0 else FromDecimal(digits[..|digits| - 1]) * 10 + (digits[|digits| - 1] as int - 0x30)
  }

  /** An ordinal is written in decimal digits and can be read back. */
  lemma {:induction false} DecimalIsRead(n: nat)
    ensures FromDecimal(Decimal(n)) == n && forall b :: b in Decimal(n) ==> 0x30 <= b <= 0x39
  {
    if n < 10 {
      assert FromDecimal(Decimal(n)[..0]) == 0;
    } else {
      DecimalIsRead(n / 10);
      assert Decimal(n)[..|Decimal(n)| - 1] == Decimal(n / 10);
    }
  }

  /** Unannotated policies of one file never get the same id. */
  lemma OrdinalsDoNotCollide<P>(stem: Bytes, p: Parsed<P>, q: Parsed<P>, m: nat, n: nat)
    requires p.annotation.None? && q.annotation.None? && m != n
    ensures PolicyId(stem, p, m) != PolicyId(stem, q, n)
  {
    DecimalIsRead(m);
    DecimalIsRead(n);
    assert PolicyId(stem, p, m)[|stem| + 1..] == Decimal(m) && PolicyId(stem, q, n)[|stem| + 1..] == Decimal(n);
  }

  /** Adds the policies of one file from number `ordinal` on; an id that is taken is an error. */
  function AddPolicies<P>(name: Bytes, parsed: seq<Parsed<P>>, ordinal: nat, policies: map<Bytes, P>)
    : Result<map<Bytes, P>, LoadError>
    decreases |parsed| - ordinal
  {
    if ordinal >= |parsed| then Ok(policies)
    else
      var id := PolicyId(Stem(name), parsed[ordinal], ordinal);
      if id in policies then Err(DuplicateId(name, id))
      else AddPolicies(name, parsed, ordinal + 1, policies[id := parsed[ordinal].policy])
  }

  function ReadText(name: Bytes, dir: map<Bytes, FileState>): Result<Bytes, LoadError>
    requires name in dir
  {
    match dir[name]
    case Unreadable(message) => Err(ReadFailed(name, message))
    case Readable(bytes) => if IsUtf8(bytes) then Ok(bytes) else Err(NotText(name))
  }

  /** Reads, digests, parses and adds the files in order. */
  function AddFiles<P>(names: seq<Bytes>, dir: map<Bytes, FileState>, parse: Parser<P>,
                       policies: map<Bytes, P>, fed: Bytes): Result<(map<Bytes, P>, Bytes), LoadError>
    requires forall i :: 0 <= i < |names| ==> names[i] in dir
    decreases |names|
  {
    if names == [] then Ok((policies, fed))
    else match ReadText(names[0], dir)
         case Err(e) => Err(e)
         case Ok(text) =>
           (match parse(text)
            case Err(message) => Err(ParseFailed(names[0], message))
            case Ok(parsed) =>
              (match AddPolicies(names[0], parsed, 0, policies)
               case Err(e) => Err(e)
               case Ok(more) =>
                 AddFiles(names[1..], dir, parse, more, fed + FrameFile(PolicyFile(names[0], text)))))
  }

  /** A set is adopted only when it holds a policy and validates. */
  function Checked<P>(policies: map<Bytes, P>, validates: Validator<P>, generation: nat, files: seq<Bytes>,
                      hashed: Bytes)
    : Result<Loaded<P>, LoadError>
  {
    if |policies| == 0 then Err(NoPolicies)
    else if !validates(policies) then Err(Invalid)
    else Ok(Loaded(policies, generation, files, hashed))
  }

  lemma {:induction false} CollectedAreFiles(listing: Listing, dir: map<Bytes, FileState>)
    requires Collect(listing, dir).Ok?
    ensures forall i :: 0 <= i < |Collect(listing, dir).value| ==> IsLoaded(Collect(listing, dir).value[i], dir)
  {
    if listing != [] {
      CollectedAreFiles(listing[1..], dir);
    }
  }

  lemma SortedAreFiles(names: seq<Bytes>, dir: map<Bytes, FileState>)
    requires forall i :: 0 <= i < |names| ==> IsLoaded(names[i], dir)
    ensures forall i :: 0 <= i < |Sort(names)| ==> IsLoaded(Sort(names)[i], dir)
  {
    SortSorts(names);
    forall i | 0 <= i < |Sort(names)|
      ensures IsLoaded(Sort(names)[i], dir)
    {
      assert Sort(names)[i] in multiset(Sort(names));
      assert Sort(names)[i] in names;
    }
  }

  function Load<P>(listing: Listing, dir: map<Bytes, FileState>, parse: Parser<P>, validates: Validator<P>,
                   generation: nat): Result<Loaded<P>, LoadError>
  {
    match Collect(listing, dir)
    case Err(e) => Err(e)
    case Ok(names) =>
      CollectedAreFiles(listing, dir);
      SortedAreFiles(names, dir);
      var files := Sort(names);
      (match AddFiles(files, dir, parse, map[], [])
       case Err(e) => Err(e)
       case Ok(pair) => Checked(pair.0, validates, generation, files, pair.1))
  }

  // ---------------------------------------------------------------------------
  // The load as it runs
  // ---------------------------------------------------------------------------

  method CollectEntries(listing: Listing, dir: map<Bytes, FileState>) returns (r: Result<seq<Bytes>, LoadError>)
    ensures r == Collect(listing, dir)
  {
    var entries: seq<Bytes> := [];
    assert listing[0..] == listing;
    assert Collect(listing, dir).Ok? ==> entries + Collect(listing, dir).value == Collect(listing, dir).value;
    for n := 0 to |listing|
      invariant Collect(listing, dir) ==
                match Collect(listing[n..], dir) case Err(e) => Err(e) case Ok(rest) => Ok(entries + rest)
    {
      assert listing[n..][1..] == listing[n + 1..];
      match listing[n] {
        case Err(source) => return Err(Enumeration(source));
        case Ok(name) =>
          if IsLoaded(name, dir) {
            if Collect(listing[n + 1..], dir).Ok? {
              assert entries + ([name] + Collect(listing[n + 1..], dir).value) ==
                     entries + [name] + Collect(listing[n + 1..], dir).value;
            }
            entries := entries + [name];
          }
      }
    }
    assert entries + [] == entries;
    return Ok(entries);
  }

  /** The policies of one parsed file go into the set under their provenance ids. */
  method AddParsed<P>(name: Bytes, parsed: seq<Parsed<P>>, before: map<Bytes, P>)
    returns (r: Result<map<Bytes, P>, LoadError>)
    ensures r == AddPolicies(name, parsed, 0, before)
  {
    var policies := before;
    for ordinal := 0 to |parsed|
      invariant AddPolicies(name, parsed, 0, before) == AddPolicies(name, parsed, ordinal, policies)
    {
      var id := PolicyId(Stem(name), parsed[ordinal], ordinal);
      if id in policies {
        return Err(DuplicateId(name, id));
      }
      policies := policies[id := parsed[ordinal].policy];
    }
    return Ok(policies);
  }

  method LoadEntries<P>(listing: Listing, dir: map<Bytes, FileState>, parse: Parser<P>, validates: Validator<P>,
                        generation: nat) returns (r: Result<Loaded<P>, LoadError>)
    ensures r == Load(listing, dir, parse, validates, generation)
  {
    var collected := CollectEntries(listing, dir);
    if collected.Err? {
      return Err(collected.error);
    }
    CollectedAreFiles(listing, dir);
    SortedAreFiles(collected.value, dir);
    var entries := Sort(collected.value);

    var policies: map<Bytes, P> := map[];
    var digest := new Digest();
    assert entries[0..] == entries;
    for n := 0 to |entries|
      invariant AddFiles(entries, dir, parse, map[], []) == AddFiles(entries[n..], dir, parse, policies, digest.fed)
    {
      assert entries[n..][1..] == entries[n + 1..];
      var read := ReadText(entries[n], dir);
      if read.Err? {
        return Err(read.error);
      }
      digest.AddFile(PolicyFile(entries[n], read.value));
      var parsed := parse(read.value);
      if parsed.Err? {
        return Err(ParseFailed(entries[n], parsed.error));
      }
      var added := AddParsed(entries[n], parsed.value, policies);
      if added.Err? {
        return Err(added.error);
      }
      policies := added.value;
    }
    return Checked(policies, validates, generation, entries, digest.fed);
  }

  // ---------------------------------------------------------------------------
  // The order of the listing leaves no trace
  // ---------------------------------------------------------------------------

  /** How often a name is collected depends on how often it is listed, and on nothing else. */
  lemma {:induction false} CollectCounts(listing: Listing, dir: map<Bytes, FileState>, name: Bytes)
    ensures Collect(listing, dir).Ok? <==> forall n :: 0 <= n < |listing| ==> listing[n].Ok?
    ensures Collect(listing, dir).Ok? ==>
              multiset(Collect(listing, dir).value)[name] ==
              if IsLoaded(name, dir) then multiset(listing)[Ok(name)] else 0
  {
    if listing != [] {
      CollectCounts(listing[1..], dir, name);
      assert listing == [listing[0]] + listing[1..];
      assert forall n :: 0 <= n < |listing[1..]| ==> listing[1..][n] == listing[n + 1];
    }
  }

  lemma {:induction false} CollectFailsByEnumeration(listing: Listing, dir: map<Bytes, FileState>)
    ensures Collect(listing, dir).Err? ==> Collect(listing, dir).error.Enumeration?
  {
    if listing != [] {
      CollectFailsByEnumeration(listing[1..], dir);
    }
  }

  lemma CollectIsOrderFree(a: Listing, b: Listing, dir: map<Bytes, FileState>)
    requires multiset(a) == multiset(b)
    ensures Collect(a, dir).Ok? <==> Collect(b, dir).Ok?
    ensures Collect(a, dir).Ok? ==> Sort(Collect(a, dir).value) == Sort(Collect(b, dir).value)
  {
    forall name
      ensures Collect(a, dir).Ok? && Collect(b, dir).Ok? ==>
                multiset(Collect(a, dir).value)[name] == multiset(Collect(b, dir).value)[name]
    {
      CollectCounts(a, dir, name);
      CollectCounts(b, dir, name);
    }
    CollectCounts(a, dir, []);
    CollectCounts(b, dir, []);
    SameMembers(a, b);
    if Collect(a, dir).Ok? {
      SortIsOrderFree(Collect(a, dir).value, Collect(b, dir).value);
    }
  }

  lemma SameMembers(a: Listing, b: Listing)
    requires multiset(a) == multiset(b)
    ensures (forall n :: 0 <= n < |a| ==> a[n].Ok?) <==> (forall n :: 0 <= n < |b| ==> b[n].Ok?)
  {
    assert forall n :: 0 <= n < |a| ==> a[n] in multiset(b);
    assert forall n :: 0 <= n < |b| ==> b[n] in multiset(a);
  }

  /** The same outcome, up to which enumeration error is carried. */
  predicate SameOutcome<P(==)>(a: Result<Loaded<P>, LoadError>, b: Result<Loaded<P>, LoadError>) {
    a == b || (a.Err? && b.Err? && a.error.Enumeration? && b.error.Enumeration?)
  }

  /** Any two orders of the same directory listing load alike: the same files, ids, policies and digest,
      or the same failure. */
  lemma LoadIsOrderFree<P>(a: Listing, b: Listing, dir: map<Bytes, FileState>, parse: Parser<P>,
                           validates: Validator<P>, generation: nat)
    requires multiset(a) == multiset(b)
    ensures SameOutcome(Load(a, dir, parse, validates, generation), Load(b, dir, parse, validates, generation))
  {
    CollectIsOrderFree(a, b, dir);
    CollectFailsByEnumeration(a, dir);
    CollectFailsByEnumeration(b, dir);
  }

  // ---------------------------------------------------------------------------
  // When a load succeeds, and what it then holds
  // ---------------------------------------------------------------------------

  /** The file can be read, is text and parses. */
  predicate IsSound<P>(name: Bytes, dir: map<Bytes, FileState>, parse: Parser<P>)
    requires name in dir
  {
    ReadText(name, dir).Ok? && parse(ReadText(name, dir).value).Ok?
  }

  function ParsedOf<P>(name: Bytes, dir: map<Bytes, FileState>, parse: Parser<P>): seq<Parsed<P>>
    requires name in dir && IsSound(name, dir, parse)
  {
    parse(ReadText(name, dir).value).value
  }

  /** The ids one file gives its policies, from number `ordinal` on. */
  function FileIds<P>(stem: Bytes, parsed: seq<Parsed<P>>, ordinal: nat): seq<Bytes>
    decreases |parsed| - ordinal
  {
    if ordinal >= |parsed| then [] else [PolicyId(stem, parsed[ordinal], ordinal)] + FileIds(stem, parsed, ordinal + 1)
  }

  predicate AllSound<P>(names: seq<Bytes>, dir: map<Bytes, FileState>, parse: Parser<P>) {
    forall i :: 0 <= i < |names| ==> names[i] in dir && IsSound(names[i], dir, parse)
  }

  /** The ids of all files, in order. */
  function AllIds<P>(names: seq<Bytes>, dir: map<Bytes, FileState>, parse: Parser<P>): seq<Bytes>
    requires AllSound(names, dir, parse)
  {
    if names == [] then []
    else FileIds(Stem(names[0]), ParsedOf(names[0], dir, parse), 0) + AllIds(names[1..], dir, parse)
  }

  /** How many policies the files hold together. */
  function PolicyCount<P>(names: seq<Bytes>, dir: map<Bytes, FileState>, parse: Parser<P>): nat
    requires AllSound(names, dir, parse)
  {
    if names == [] then 0 else |ParsedOf(names[0], dir, parse)| + PolicyCount(names[1..], dir, parse)
  }

  predicate Distinct(ids: seq<Bytes>) {
    ids == [] || (ids[0] !in ids[1..] && Distinct(ids[1..]))
  }

  predicate NoneIn<P>(ids: seq<Bytes>, policies: map<Bytes, P>) {
    forall id :: id in ids ==> id !in policies
  }

  lemma {:induction false} FileIdsCount<P>(stem: Bytes, parsed: seq<Parsed<P>>, ordinal: nat)
    ensures |FileIds(stem, parsed, ordinal)| == if ordinal >= |parsed| then 0 else |parsed| - ordinal
    decreases |parsed| - ordinal
  {
    if ordinal < |parsed| {
      FileIdsCount(stem, parsed, ordinal + 1);
    }
  }

  lemma {:induction false} AllIdsCount<P>(names: seq<Bytes>, dir: map<Bytes, FileState>, parse: Parser<P>)
    requires AllSound(names, dir, parse)
    ensures |AllIds(names, dir, parse)| == PolicyCount(names, dir, parse)
  {
    if names != [] {
      FileIdsCount(Stem(names[0]), ParsedOf(names[0], dir, parse), 0);
      AllIdsCount(names[1..], dir, parse);
    }
  }

  /** `policies` is `before` with one policy added for each of `ids`, all of them new. */
  ghost predicate Adds<P>(before: map<Bytes, P>, ids: seq<Bytes>, policies: map<Bytes, P>) {
    policies.Keys == before.Keys + Members(ids) && |policies| == |before| + |ids|
  }

  function Members(ids: seq<Bytes>): set<Bytes> {
    set id | id in ids
  }

  lemma MembersAppend(a: seq<Bytes>, b: seq<Bytes>)
    ensures Members(a + b) == Members(a) + Members(b)
  {
  }

  lemma DistinctCons(id: Bytes, ids: seq<Bytes>)
    ensures Distinct([id] + ids) <==> Distinct(ids) && id !in ids
  {
    assert ([id] + ids)[1..] == ids;
  }

  lemma NoneInCons<P>(id: Bytes, ids: seq<Bytes>, policies: map<Bytes, P>, p: P)
    ensures NoneIn([id] + ids, policies) <==> id !in policies && NoneIn(ids, policies)
    ensures NoneIn(ids, policies[id := p]) <==> NoneIn(ids, policies) && id !in ids
  {
    assert forall x :: x in [id] + ids <==> x == id || x in ids;
  }

  lemma OneMoreKey<P>(before: map<Bytes, P>, id: Bytes, p: P)
    requires id !in before
    ensures before[id := p].Keys == before.Keys + {id} && |before[id := p]| == |before| + 1
  {
    assert |before[id := p].Keys| == |before.Keys + {id}|;
  }

  lemma AddsOneMore<P>(before: map<Bytes, P>, id: Bytes, middle: map<Bytes, P>, ids: seq<Bytes>,
                       policies: map<Bytes, P>)
    requires middle.Keys == before.Keys + {id} && |middle| == |before| + 1 && Adds(middle, ids, policies)
    ensures Adds(before, [id] + ids, policies)
  {
    MembersCons(id, ids);
  }

  lemma MembersCons(id: Bytes, ids: seq<Bytes>)
    ensures Members([id] + ids) == {id} + Members(ids)
  {
    assert forall x :: x in [id] + ids <==> x == id || x in ids;
  }

  /** What was there is there still. */
  ghost predicate Keeps<P>(before: map<Bytes, P>, policies: map<Bytes, P>) {
    forall id :: id in before ==> id in policies && policies[id] == before[id]
  }

  /** Each policy of the file from number `ordinal` on stands under its own id. */
  ghost predicate HoldsFile<P>(name: Bytes, parsed: seq<Parsed<P>>, ordinal: nat, policies: map<Bytes, P>) {
    forall i :: ordinal <= i < |parsed| ==> HoldsPolicy(PolicyId(Stem(name), parsed[i], i), parsed[i].policy, policies)
  }

  ghost predicate HoldsPolicy<P>(id: Bytes, p: P, policies: map<Bytes, P>) {
    id in policies && policies[id] == p
  }

  ghost predicate HoldsFiles<P>(names: seq<Bytes>, dir: map<Bytes, FileState>, parse: Parser<P>,
                                policies: map<Bytes, P>)
    requires AllSound(names, dir, parse)
  {
    forall f :: 0 <= f < |names| ==> HoldsFile(names[f], ParsedOf(names[f], dir, parse), 0, policies)
  }

  lemma {:induction false} AddPoliciesHolds<P>(name: Bytes, parsed: seq<Parsed<P>>, ordinal: nat,
                                               policies: map<Bytes, P>)
    requires AddPolicies(name, parsed, ordinal, policies).Ok?
    ensures Keeps(policies, AddPolicies(name, parsed, ordinal, policies).value)
    ensures HoldsFile(name, parsed, ordinal, AddPolicies(name, parsed, ordinal, policies).value)
    decreases |parsed| - ordinal
  {
    if ordinal < |parsed| {
      var id := PolicyId(Stem(name), parsed[ordinal], ordinal);
      var more := policies[id := parsed[ordinal].policy];
      AddPoliciesHolds(name, parsed, ordinal + 1, more);
      assert id in more && more[id] == parsed[ordinal].policy;
    }
  }

  lemma {:induction false} AddFilesHolds<P>(names: seq<Bytes>, dir: map<Bytes, FileState>, parse: Parser<P>,
                                            policies: map<Bytes, P>, fed: Bytes)
    requires forall i :: 0 <= i < |names| ==> names[i] in dir
    requires AddFiles(names, dir, parse, policies, fed).Ok? && AllSound(names, dir, parse)
    ensures Keeps(policies, AddFiles(names, dir, parse, policies, fed).value.0)
    ensures HoldsFiles(names, dir, parse, AddFiles(names, dir, parse, policies, fed).value.0)
    decreases |names|
  {
    if names != [] {
      var parsed := ParsedOf(names[0], dir, parse);
      var more := AddPolicies(names[0], parsed, 0, policies).value;
      var frame := FrameFile(PolicyFile(names[0], ReadText(names[0], dir).value));
      AddPoliciesHolds(names[0], parsed, 0, policies);
      AllSoundCons(names, dir, parse);
      AddFilesHolds(names[1..], dir, parse, more, fed + frame);
      KeptFile(names[0], parsed, more, AddFiles(names[1..], dir, parse, more, fed + frame).value.0);
      assert forall f :: 0 < f < |names| ==> names[f] == names[1..][f - 1];
    }
  }

  lemma KeptFile<P>(name: Bytes, parsed: seq<Parsed<P>>, before: map<Bytes, P>, policies: map<Bytes, P>)
    requires HoldsFile(name, parsed, 0, before) && Keeps(before, policies)
    ensures HoldsFile(name, parsed, 0, policies)
  {
    forall i | 0 <= i < |parsed|
      ensures HoldsPolicy(PolicyId(Stem(name), parsed[i], i), parsed[i].policy, policies)
    {
      assert HoldsPolicy(PolicyId(Stem(name), parsed[i], i), parsed[i].policy, before);
    }
  }

  /** A file is added exactly when its ids are distinct and new; then its policies stand under them, beside
      what was there, and nothing else does. */
  lemma {:induction false} AddPoliciesExactly<P>(name: Bytes, parsed: seq<Parsed<P>>, ordinal: nat,
                                                 policies: map<Bytes, P>)
    ensures var ids := FileIds(Stem(name), parsed, ordinal);
            var r := AddPolicies(name, parsed, ordinal, policies);
            (r.Ok? <==> Distinct(ids) && NoneIn(ids, policies)) &&
            (r.Ok? ==> Adds(policies, ids, r.value) && Keeps(policies, r.value) &&
                       HoldsFile(name, parsed, ordinal, r.value))
    decreases |parsed| - ordinal
  {
    if AddPolicies(name, parsed, ordinal, policies).Ok? {
      AddPoliciesHolds(name, parsed, ordinal, policies);
    }
    if ordinal < |parsed| {
      var id, p := PolicyId(Stem(name), parsed[ordinal], ordinal), parsed[ordinal].policy;
      var rest := FileIds(Stem(name), parsed, ordinal + 1);
      AddPoliciesExactly(name, parsed, ordinal + 1, policies[id := p]);
      DistinctCons(id, rest);
      NoneInCons(id, rest, policies, p);
      var r := AddPolicies(name, parsed, ordinal + 1, policies[id := p]);
      if id !in policies && r.Ok? {
        OneMoreKey(policies, id, p);
        AddsOneMore(policies, id, policies[id := p], rest, r.value);
      }
    }
  }

  lemma {:induction false} DistinctAppend(a: seq<Bytes>, b: seq<Bytes>)
    ensures Distinct(a + b) <==> Distinct(a) && Distinct(b) && forall id :: id in a ==> id !in b
  {
    if a == [] {
      assert a + b == b;
    } else {
      assert (a + b)[1..] == a[1..] + b;
      DistinctAppend(a[1..], b);
      assert a == [a[0]] + a[1..];
    }
  }

  lemma NoneInAppend<P>(a: seq<Bytes>, b: seq<Bytes>, policies: map<Bytes, P>)
    ensures NoneIn(a + b, policies) <==> NoneIn(a, policies) && NoneIn(b, policies)
  {
    assert forall x :: x in a + b <==> x in a || x in b;
  }

  lemma AddsTwice<P>(before: map<Bytes, P>, a: seq<Bytes>, middle: map<Bytes, P>, b: seq<Bytes>,
                     policies: map<Bytes, P>)
    requires Adds(before, a, middle) && Adds(middle, b, policies)
    ensures Adds(before, a + b, policies)
  {
    MembersAppend(a, b);
  }

  /** Each file is sound, and no id is given twice or taken already. */
  predicate CanAdd<P>(names: seq<Bytes>, dir: map<Bytes, FileState>, parse: Parser<P>, policies: map<Bytes, P>) {
    AllSound(names, dir, parse) && Distinct(AllIds(names, dir, parse)) && NoneIn(AllIds(names, dir, parse), policies)
  }

  /** What adding the files amounts to: it succeeds when they can be added, and the digest is then fed
      exactly their frames. */
  ghost predicate AddedExactly<P>(names: seq<Bytes>, dir: map<Bytes, FileState>, parse: Parser<P>,
                                  policies: map<Bytes, P>, fed: Bytes, r: Result<(map<Bytes, P>, Bytes), LoadError>)
  {
    if CanAdd(names, dir, parse, policies) then
      r.Ok? && Adds(policies, AllIds(names, dir, parse), r.value.0) &&
      r.value.1 == fed + FrameAll(FilesOf(names, dir, parse))
    else r.Err?
  }

  lemma AllSoundCons<P>(names: seq<Bytes>, dir: map<Bytes, FileState>, parse: Parser<P>)
    requires names != [] && names[0] in dir
    ensures AllSound(names, dir, parse) <==> IsSound(names[0], dir, parse) && AllSound(names[1..], dir, parse)
  {
    assert forall i :: 0 <= i < |names[1..]| ==> names[1..][i] == names[i + 1];
    assert forall i :: 0 < i < |names| ==> names[i] == names[1..][i - 1];
  }

  lemma AddFilesExactly<P>(names: seq<Bytes>, dir: map<Bytes, FileState>, parse: Parser<P>,
                           policies: map<Bytes, P>, fed: Bytes)
    requires forall i :: 0 <= i < |names| ==> names[i] in dir
    ensures AddedExactly(names, dir, parse, policies, fed, AddFiles(names, dir, parse, policies, fed))
    ensures CanAdd(names, dir, parse, policies) ==>
              Keeps(policies, AddFiles(names, dir, parse, policies, fed).value.0) &&
              HoldsFiles(names, dir, parse, AddFiles(names, dir, parse, policies, fed).value.0)
  {
    AddFilesCounts(names, dir, parse, policies, fed);
    if CanAdd(names, dir, parse, policies) {
      AddFilesHolds(names, dir, parse, policies, fed);
    }
  }

  lemma {:induction false} AddFilesCounts<P>(names: seq<Bytes>, dir: map<Bytes, FileState>, parse: Parser<P>,
                                             policies: map<Bytes, P>, fed: Bytes)
    requires forall i :: 0 <= i < |names| ==> names[i] in dir
    ensures AddedExactly(names, dir, parse, policies, fed, AddFiles(names, dir, parse, policies, fed))
    decreases |names|
  {
    if names == [] {
      assert fed + [] == fed;
      assert Members(AllIds(names, dir, parse)) == {};
    } else {
      AllSoundCons(names, dir, parse);
      if IsSound(names[0], dir, parse) {
        var parsed := ParsedOf(names[0], dir, parse);
        AddPoliciesExactly(names[0], parsed, 0, policies);
        var first := AddPolicies(names[0], parsed, 0, policies);
        var frame := FrameFile(PolicyFile(names[0], ReadText(names[0], dir).value));
        if first.Ok? {
          AddFilesCounts(names[1..], dir, parse, first.value, fed + frame);
          FirstThenRest(names, dir, parse, policies, fed, first.value,
                        AddFiles(names[1..], dir, parse, first.value, fed + frame));
        } else if AllSound(names[1..], dir, parse) {
          var ids := FileIds(Stem(names[0]), parsed, 0);
          DistinctAppend(ids, AllIds(names[1..], dir, parse));
          NoneInAppend(ids, AllIds(names[1..], dir, parse), policies);
        }
      }
    }
  }

  lemma CanAddRest<P>(names: seq<Bytes>, dir: map<Bytes, FileState>, parse: Parser<P>, policies: map<Bytes, P>,
                      middle: map<Bytes, P>)
    requires names != [] && names[0] in dir && IsSound(names[0], dir, parse)
    requires var ids := FileIds(Stem(names[0]), ParsedOf(names[0], dir, parse), 0);
             Distinct(ids) && NoneIn(ids, policies) && Adds(policies, ids, middle)
    ensures CanAdd(names, dir, parse, policies) <==> CanAdd(names[1..], dir, parse, middle)
  {
    AllSoundCons(names, dir, parse);
    if AllSound(names[1..], dir, parse) {
      var ids, rest := FileIds(Stem(names[0]), ParsedOf(names[0], dir, parse), 0), AllIds(names[1..], dir, parse);
      assert AllIds(names, dir, parse) == ids + rest;
      DistinctAppend(ids, rest);
      NoneInAppend(ids, rest, policies);
      NoneInAfter(ids, rest, policies, middle);
    }
  }

  lemma FirstThenRest<P>(names: seq<Bytes>, dir: map<Bytes, FileState>, parse: Parser<P>, policies: map<Bytes, P>,
                         fed: Bytes, middle: map<Bytes, P>, r: Result<(map<Bytes, P>, Bytes), LoadError>)
    requires names != [] && names[0] in dir && IsSound(names[0], dir, parse)
    requires var ids := FileIds(Stem(names[0]), ParsedOf(names[0], dir, parse), 0);
             Distinct(ids) && NoneIn(ids, policies) && Adds(policies, ids, middle)
    requires AddedExactly(names[1..], dir, parse, middle,
                          fed + FrameFile(PolicyFile(names[0], ReadText(names[0], dir).value)), r)
    ensures AddedExactly(names, dir, parse, policies, fed, r)
  {
    CanAddRest(names, dir, parse, policies, middle);
    AllSoundCons(names, dir, parse);
    if CanAdd(names, dir, parse, policies) {
      var file := PolicyFile(names[0], ReadText(names[0], dir).value);
      var files := FilesOf(names[1..], dir, parse);
      AddsTwice(policies, FileIds(Stem(names[0]), ParsedOf(names[0], dir, parse), 0), middle,
                AllIds(names[1..], dir, parse), r.value.0);
      assert FilesOf(names, dir, parse) == [file] + files;
      FrameAllCons(fed, file, files);
    }
  }

  lemma FrameAllCons(fed: Bytes, file: PolicyFile, files: seq<PolicyFile>)
    ensures fed + FrameFile(file) + FrameAll(files) == fed + FrameAll([file] + files)
  {
    assert ([file] + files)[1..] == files;
  }

  lemma NoneInAfter<P>(ids: seq<Bytes>, rest: seq<Bytes>, policies: map<Bytes, P>, more: map<Bytes, P>)
    requires Adds(policies, ids, more)
    ensures NoneIn(rest, more) <==> NoneIn(rest, policies) && forall id :: id in ids ==> id !in rest
  {
    if NoneIn(rest, more) {
      forall i | 0 <= i < |rest|
        ensures rest[i] !in policies && rest[i] !in ids
      {
        assert rest[i] !in more.Keys;
      }
    } else {
      var i :| 0 <= i < |rest| && rest[i] in more;
      assert rest[i] in more.Keys;
      assert rest[i] in policies || rest[i] in ids;
    }
  }

  /** The names and texts the digest is fed. */
  function FilesOf<P>(names: seq<Bytes>, dir: map<Bytes, FileState>, parse: Parser<P>): seq<PolicyFile>
    requires AllSound(names, dir, parse)
  {
    if names == [] then []
    else [PolicyFile(names[0], ReadText(names[0], dir).value)] + FilesOf(names[1..], dir, parse)
  }

  /** They are the names in order, each with the bytes of its file. */
  lemma {:induction false} FilesAreRead<P>(names: seq<Bytes>, dir: map<Bytes, FileState>, parse: Parser<P>)
    requires AllSound(names, dir, parse)
    ensures var files := FilesOf(names, dir, parse);
            |files| == |names| &&
            forall i :: 0 <= i < |names| ==> files[i].name == names[i] && dir[names[i]] == Readable(files[i].contents)
  {
    if names != [] {
      AllSoundCons(names, dir, parse);
      FilesAreRead(names[1..], dir, parse);
      assert forall i :: 0 < i < |names| ==> names[i] == names[1..][i - 1];
    }
  }

  /** A load succeeds exactly when the directory could be enumerated, every loaded file is sound, no id is
      given twice, there is at least one policy and the set validates. */
  lemma LoadSucceedsExactly<P>(listing: Listing, dir: map<Bytes, FileState>, parse: Parser<P>, validates: Validator<P>,
                               generation: nat)
    ensures Load(listing, dir, parse, validates, generation).Ok? <==>
            Collect(listing, dir).Ok? &&
            var names := Sort(Collect(listing, dir).value);
            AllSound(names, dir, parse) && Distinct(AllIds(names, dir, parse)) && PolicyCount(names, dir, parse) > 0 &&
            ValidatesWhole(names, dir, parse, validates)
  {
    if Collect(listing, dir).Ok? {
      var names := Sort(Collect(listing, dir).value);
      LoadAfterCollect(listing, dir, parse, validates, generation);
    }
  }

  /** The set the files add up to passes validation. */
  ghost predicate ValidatesWhole<P>(names: seq<Bytes>, dir: map<Bytes, FileState>, parse: Parser<P>,
                                    validates: Validator<P>)
  {
    (forall i :: 0 <= i < |names| ==> names[i] in dir) &&
    (AddFiles(names, dir, parse, map[], []).Ok? ==> validates(AddFiles(names, dir, parse, map[], []).value.0))
  }

  lemma LoadAfterCollect<P>(listing: Listing, dir: map<Bytes, FileState>, parse: Parser<P>, validates: Validator<P>,
                            generation: nat)
    requires Collect(listing, dir).Ok?
    ensures var names := Sort(Collect(listing, dir).value);
            (Load(listing, dir, parse, validates, generation).Ok? <==>
               AllSound(names, dir, parse) && Distinct(AllIds(names, dir, parse)) &&
               PolicyCount(names, dir, parse) > 0 && ValidatesWhole(names, dir, parse, validates))
  {
    var names := Sort(Collect(listing, dir).value);
    CollectedAreFiles(listing, dir);
    SortedAreFiles(Collect(listing, dir).value, dir);
    AddFilesExactly(names, dir, parse, map[], []);
    if AllSound(names, dir, parse) {
      AllIdsCount(names, dir, parse);
    }
  }

  /** What a successful load holds: every policy of the loaded files under its own id, all ids distinct,
      nothing else, and the bytes from which exactly those files can be read back. */
  lemma LoadedSetIsWhole<P>(listing: Listing, dir: map<Bytes, FileState>, parse: Parser<P>, validates: Validator<P>,
                            generation: nat)
    requires Load(listing, dir, parse, validates, generation).Ok?
    ensures var loaded := Load(listing, dir, parse, validates, generation).value;
            AllSound(loaded.files, dir, parse) && Distinct(AllIds(loaded.files, dir, parse)) &&
            loaded.policies.Keys == Members(AllIds(loaded.files, dir, parse)) &&
            HoldsFiles(loaded.files, dir, parse, loaded.policies) &&
            |loaded.policies| == PolicyCount(loaded.files, dir, parse) && |loaded.policies| > 0 &&
            validates(loaded.policies) && loaded.generation == generation &&
            loaded.hashed == FrameAll(FilesOf(loaded.files, dir, parse))
  {
    var names := Sort(Collect(listing, dir).value);
    CollectedAreFiles(listing, dir);
    SortedAreFiles(Collect(listing, dir).value, dir);
    AddFilesExactly(names, dir, parse, map[], []);
    AllIdsCount(names, dir, parse);
    assert [] + FrameAll(FilesOf(names, dir, parse)) == FrameAll(FilesOf(names, dir, parse));
  }

  /** Two loads that fed the digest the same bytes loaded the same files with the same contents. */
  lemma SameDigestSameFiles<P>(a: Result<Loaded<P>, LoadError>, b: Result<Loaded<P>, LoadError>,
                               listingA: Listing, listingB: Listing,
                               dirA: map<Bytes, FileState>, dirB: map<Bytes, FileState>,
                               parse: Parser<P>, validates: Validator<P>, m: nat, n: nat)
    requires a == Load(listingA, dirA, parse, validates, m) && a.Ok?
    requires b == Load(listingB, dirB, parse, validates, n) && b.Ok?
    requires AllSound(a.value.files, dirA, parse) && AllSound(b.value.files, dirB, parse)
    requires forall f :: f in FilesOf(a.value.files, dirA, parse) ==> FileFits(f)
    requires forall f :: f in FilesOf(b.value.files, dirB, parse) ==> FileFits(f)
    ensures a.value.hashed == b.value.hashed <==>
            FilesOf(a.value.files, dirA, parse) == FilesOf(b.value.files, dirB, parse)
  {
    LoadedSetIsWhole(listingA, dirA, parse, validates, m);
    LoadedSetIsWhole(listingB, dirB, parse, validates, n);
    FramingIsInjective(FilesOf(a.value.files, dirA, parse), FilesOf(b.value.files, dirB, parse));
  }

  // ---------------------------------------------------------------------------
  // Why a load fails
  // ---------------------------------------------------------------------------

  /** The error of the first entry that could not be read. */
  lemma {:induction false} EnumerationFailsAt(listing: Listing, dir: map<Bytes, FileState>) returns (n: nat)
    requires Collect(listing, dir).Err?
    ensures n < |listing| && listing[n].Err? && Collect(listing, dir).error == Enumeration(listing[n].error)
    ensures forall i :: 0 <= i < n ==> listing[i].Ok?
  {
    n := 0;
    if listing[0].Ok? {
      n := EnumerationFailsAt(listing[1..], dir);
      assert forall i :: 0 < i <= n ==> listing[i] == listing[1..][i - 1];
      n := n + 1;
    }
  }

  /** `id` is the first of a file's ids that is taken, by an earlier policy of it or by another file's. */
  ghost predicate IsTaken<P>(name: Bytes, parsed: seq<Parsed<P>>, ordinal: nat, policies: map<Bytes, P>, id: Bytes,
                             k: nat)
  {
    ordinal <= k < |parsed| && id == PolicyId(Stem(name), parsed[k], k) &&
    (id in policies || exists j :: ordinal <= j < k && PolicyId(Stem(name), parsed[j], j) == id)
  }

  lemma {:induction false} DuplicateFailsAt<P>(name: Bytes, parsed: seq<Parsed<P>>, ordinal: nat,
                                               policies: map<Bytes, P>)
    returns (k: nat)
    requires AddPolicies(name, parsed, ordinal, policies).Err?
    ensures k < |parsed| && IsTaken(name, parsed, ordinal, policies, PolicyId(Stem(name), parsed[k], k), k)
    ensures AddPolicies(name, parsed, ordinal, policies).error == DuplicateId(name, PolicyId(Stem(name), parsed[k], k))
    decreases |parsed| - ordinal
  {
    var id := PolicyId(Stem(name), parsed[ordinal], ordinal);
    if id in policies {
      k := ordinal;
    } else {
      k := DuplicateFailsAt(name, parsed, ordinal + 1, policies[id := parsed[ordinal].policy]);
    }
  }

  /** The error says what is the matter with the file, given the policies of those in front of it. */
  ghost predicate IsMatter<P>(name: Bytes, state: FileState, parse: Parser<P>, before: map<Bytes, P>, e: LoadError) {
    match state
    case Unreadable(message) => e == ReadFailed(name, message)
    case Readable(bytes) =>
      if !IsUtf8(bytes) then e == NotText(name)
      else
        match parse(bytes)
        case Err(message) => e == ParseFailed(name, message)
        case Ok(parsed) => e.DuplicateId? && e.name == name && exists k :: IsTaken(name, parsed, 0, before, e.id, k)
  }

  /** The first file that cannot be added is the one the error is about. */
  lemma {:induction false} FileFailsAt<P>(names: seq<Bytes>, dir: map<Bytes, FileState>, parse: Parser<P>,
                                          policies: map<Bytes, P>, fed: Bytes) returns (f: nat)
    requires forall i :: 0 <= i < |names| ==> names[i] in dir
    requires AddFiles(names, dir, parse, policies, fed).Err?
    ensures f < |names| && AddFiles(names[..f], dir, parse, policies, fed).Ok?
    ensures IsMatter(names[f], dir[names[f]], parse, AddFiles(names[..f], dir, parse, policies, fed).value.0,
                     AddFiles(names, dir, parse, policies, fed).error)
    decreases |names|
  {
    var text := ReadText(names[0], dir);
    f := 0;
    if text.Ok? && parse(text.value).Ok? {
      var parsed := parse(text.value).value;
      var more := AddPolicies(names[0], parsed, 0, policies);
      if more.Err? {
        var k := DuplicateFailsAt(names[0], parsed, 0, policies);
      } else {
        var fedMore := fed + FrameFile(PolicyFile(names[0], text.value));
        var rest := FileFailsAt(names[1..], dir, parse, more.value, fedMore);
        f := rest + 1;
        assert names[..f][1..] == names[1..][..rest] && names[..f][0] == names[0];
      }
    }
  }

  /** Why a load fails: at the listing's first error; at the first file that cannot be added; for want of
      policies; or because the set does not validate. */
  lemma LoadFailsBecause<P>(listing: Listing, dir: map<Bytes, FileState>, parse: Parser<P>, validates: Validator<P>,
                            generation: nat)
    requires Load(listing, dir, parse, validates, generation).Err?
    ensures var e := Load(listing, dir, parse, validates, generation).error;
            if Collect(listing, dir).Err? then e == Collect(listing, dir).error
            else
              var names := Sort(Collect(listing, dir).value);
              (forall i :: 0 <= i < |names| ==> names[i] in dir) &&
              match AddFiles(names, dir, parse, map[], [])
              case Err(matter) => e == matter
              case Ok(pair) => e == if pair.0 == map[] then NoPolicies else Invalid
  {
    if Collect(listing, dir).Ok? {
      CollectedAreFiles(listing, dir);
      SortedAreFiles(Collect(listing, dir).value, dir);
    }
  }
}
