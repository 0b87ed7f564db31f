/** The trust check and the loader together: a policy directory the check is silent about loads the same
    policies later as now, whatever other local users do in between. */
module TrustedLoad {
  import opened Wrappers
  import opened FileTree
  import opened TrustCheck
  import opened TrustAdequacy
  import Loader

  /** A listing that yields each entry of the directory once, in any order, and no error. */
  ghost predicate ListsOnce(listing: Loader.Listing, entries: map<Name, Inode>) {
    (forall n :: 0 <= n < |listing| ==> listing[n].Ok?) &&
    forall name :: multiset(listing)[Ok(name)] == if name in entries then 1 else 0
  }

  /** The files the loader would read, as it finds them. */
  function FilesIn(t: Tree, names: seq<Name>): map<Name, Loader.FileState>
    requires WellFormed(t) && At(t, names).Found? && t.nodes[At(t, names).value].Directory?
  {
    var contents := Contents(t, Entries(t, names));
    map name | name in contents :: Loader.Readable(contents[name])
  }

  lemma SameListing(a: Loader.Listing, b: Loader.Listing, entries: map<Name, Inode>)
    requires ListsOnce(a, entries) && ListsOnce(b, entries)
    ensures multiset(a) == multiset(b)
  {
    forall e
      ensures multiset(a)[e] == multiset(b)[e]
    {
      match e {
        case Ok(name) =>
        case Err(_) => assert e !in a && e !in b;
      }
    }
  }

  /** What the directory holds for the check, as a listing without errors. */
  ghost predicate ChecksOut(t: Tree, names: seq<Name>, listing: seq<Option<Name>>, euid: Uid, limit: nat)
    requires WellFormed(t) && IsPlainDirectory(t, names)
  {
    (forall n :: 0 <= n < |listing| ==> listing[n].Some?) && Lists(listing, Entries(t, names)) &&
    CheckPolicyDir(t, Downs(names), listing, euid, limit).None?
  }

  /** Behind a silent check, loading now and loading after any steps of other users give the same policies
      under the same ids from the same files, and the same digest; or the same failure. */
  lemma TrustedLoadIsStable<P>(t: Tree, names: seq<Name>, listing: seq<Option<Name>>, euid: Uid, limit: nat,
                               actions: seq<Action>, now: Loader.Listing, later: Loader.Listing,
                               parse: Loader.Parser<P>, validates: Loader.Validator<P>, generation: nat)
    requires WellFormed(t) && IsPlainDirectory(t, names) && ChecksOut(t, names, listing, euid, limit)
    requires MayRun(t, actions, euid)
    requires ListsOnce(now, Entries(t, names))
    ensures var after := RunAll(t, actions, euid);
            IsPlainDirectory(after, names) &&
            (ListsOnce(later, Entries(after, names)) ==>
               Loader.Load(now, FilesIn(t, names), parse, validates, generation) ==
               Loader.Load(later, FilesIn(after, names), parse, validates, generation))
  {
    CheckIsSilentExactly(t, names, listing, euid, limit);
    TrustSurvivesEveryRun(t, names, euid, actions);
    var after := RunAll(t, actions, euid);
    assert LoadedFrom(after, names) == LoadedFrom(t, names);
    assert Entries(after, names) == Entries(t, names);
    assert FilesIn(after, names) == FilesIn(t, names);
    if ListsOnce(later, Entries(after, names)) {
      SameListing(now, later, Entries(t, names));
      Loader.CollectIsOrderFree(now, later, FilesIn(t, names));
      Loader.CollectCounts(now, FilesIn(t, names), []);
    }
  }
}
