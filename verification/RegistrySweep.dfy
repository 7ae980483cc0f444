/** The registry sweep (internal/cluster/registry.go, PruneRegistry, CollectRegistryGarbage and BeginBuild;
    internal/registry/registry.go, Prunable and DeleteManifest). */
module RegistrySweep {
  import opened Text

  const CACHE_TAG := "buildcache"

  /** A repository: what each tag points at. */
  type Tags = map<string, string>

  /** An image the panel still needs, as repository and tag. */
  datatype Image = Image(repo: string, tag: string)

  /** Calls that fail: listing a repository's tags, resolving a tag, deleting the manifest a tag was resolved to. The
      same manifest may be deleted when the next of its tags comes up. */
  datatype Faults = Faults(list: set<string>, resolve: set<Image>, delete: set<Image>)

  predicate Prunable(tag: string, keep: set<string>) { tag != CACHE_TAG && tag !in keep }

  /** DeleteManifest: every tag that points at the digest goes. */
  function Deleted(tags: Tags, digest: string): Tags {
    map t | t in tags && tags[t] != digest :: tags[t]
  }

  predicate Sweeps(repo: string, tags: Tags, keep: set<string>, faults: Faults, tag: string) {
    && tag in tags && Prunable(tag, keep)
    && Image(repo, tag) !in faults.resolve && Image(repo, tag) !in faults.delete
  }

  /** The digests a pass over one repository deletes. */
  function Doomed(repo: string, tags: Tags, keep: set<string>, faults: Faults): set<string> {
    set t | t in tags && Sweeps(repo, tags, keep, faults, t) :: tags[t]
  }

  function Survivors(tags: Tags, doomed: set<string>): Tags {
    map t | t in tags && tags[t] !in doomed :: tags[t]
  }

  /** A repository after the sweep. */
  function Swept(repo: string, tags: Tags, keep: set<string>, faults: Faults): Tags {
    if repo in faults.list then tags else Survivors(tags, Doomed(repo, tags, keep, faults))
  }

  function KeepFor(images: seq<Option<Image>>, repo: string): set<string> {
    set i | 0 <= i < |images| && images[i].Some? && images[i].value.repo == repo :: images[i].value.tag
  }

  /** How many manifests a prune of these repositories deletes. */
  ghost function DoomedIn(names: seq<string>, repos: map<string, Tags>, images: seq<Option<Image>>, faults: Faults): nat
    requires forall r :: r in names ==> r in repos
  {
    if names == [] then 0
    else
      var repo := names[|names| - 1];
      DoomedIn(names[..|names| - 1], repos, images, faults)
        + if repo in faults.list then 0 else |Doomed(repo, repos[repo], KeepFor(images, repo), faults)|
  }

  class Registry {
    var repos: map<string, Tags>

    constructor (repos: map<string, Tags>)
      ensures this.repos == repos
    {
      this.repos := repos;
    }

    /** One pass over a repository's listed tags. `listed` is every tag it had, in the order the registry lists them. */
    method PruneRepo(repo: string, listed: seq<string>, keep: set<string>, faults: Faults) returns (removed: nat)
      requires repo in repos && forall t :: t in listed <==> t in repos[repo]
      modifies this
      ensures repos == old(repos)[repo := Survivors(old(repos)[repo], Doomed(repo, old(repos)[repo], keep, faults))]
      ensures removed == |Doomed(repo, old(repos)[repo], keep, faults)|
    {
      hide Sweeps, Survivors, Doomed, Deleted;
      ghost var before := repos[repo];
      ghost var gone: set<string> := {};
      removed := 0;
      AllSurvive(before);
      assert old(repos)[repo := before] == old(repos);
      for i := 0 to |listed|
        invariant repos == old(repos)[repo := Survivors(before, gone)]
        invariant forall k :: 0 <= k < i && Sweeps(repo, before, keep, faults, listed[k]) ==> before[listed[k]] in gone
        invariant gone <= Doomed(repo, before, keep, faults) && removed == |gone|
      {
        var did := PruneTag(repo, listed[i], keep, faults, before, gone);
        if did {
          gone := gone + {before[listed[i]]};
          removed := removed + 1;
        }
      }
      NoneLeft(repo, listed, before, keep, faults, gone);
    }

    /** One turn of the pass: the tag is resolved as the repository is by now, and its manifest deleted. */
    method PruneTag(repo: string, tag: string, keep: set<string>, faults: Faults, ghost before: Tags,
                    ghost gone: set<string>)
        returns (did: bool)
      requires repo in repos && repos[repo] == Survivors(before, gone) && tag in before
      requires gone <= Doomed(repo, before, keep, faults)
      modifies this
      ensures did ==> before[tag] !in gone && before[tag] in Doomed(repo, before, keep, faults)
      ensures repos == old(repos)[repo := Survivors(before, if did then gone + {before[tag]} else gone)]
      ensures Sweeps(repo, before, keep, faults, tag) ==> did || before[tag] in gone
    {
      Gone(before, gone, tag);
      hide Survivors, Deleted;
      assert old(repos)[repo := repos[repo]] == old(repos);
      if !Prunable(tag, keep) || tag !in repos[repo] || Image(repo, tag) in faults.resolve {
        return false;
      }
      var digest := repos[repo][tag];
      if Image(repo, tag) in faults.delete {
        return false;
      }
      DeleteOne(before, gone, tag);
      repos := repos[repo := Deleted(repos[repo], digest)];
      return true;
    }

    /** The whole prune. `names` is every repository, and `listings` their tags, in the registry's order. */
    method Prune(images: seq<Option<Image>>, names: seq<string>, listings: map<string, seq<string>>, faults: Faults)
        returns (removed: nat)
      requires forall i, j :: 0 <= i < j < |names| ==> names[i] != names[j]
      requires forall r :: r in names <==> r in repos
      requires forall r :: r in names ==> r in listings && forall t :: t in listings[r] <==> t in repos[r]
      modifies this
      ensures repos.Keys == old(repos).Keys
      ensures forall r :: r in repos ==> repos[r] == Swept(r, old(repos)[r], KeepFor(images, r), faults)
      ensures removed == DoomedIn(names, old(repos), images, faults)
    {
      hide Swept, KeepFor, Survivors, Doomed;
      removed := 0;
      for i := 0 to |names|
        invariant removed == DoomedIn(names[..i], old(repos), images, faults)
        invariant repos.Keys == old(repos).Keys
        invariant forall k :: 0 <= k < |names| ==>
          repos[names[k]] == if k < i then Swept(names[k], old(repos)[names[k]], KeepFor(images, names[k]), faults)
                             else old(repos)[names[k]]
      {
        var repo := names[i];
        assert repo in names;
        SweptMeans(repo, repos[repo], KeepFor(images, repo), faults);
        assert names[..i + 1][..i] == names[..i];
        if repo !in faults.list {
          var n := PruneRepo(repo, listings[repo], KeepFor(images, repo), faults);
          removed := removed + n;
        }
      }
      assert names[..|names|] == names;
      forall r | r in repos ensures repos[r] == Swept(r, old(repos)[r], KeepFor(images, r), faults) {
        var k :| 0 <= k < |names| && names[k] == r;
      }
    }
  }

  lemma AllSurvive(before: Tags)
    ensures Survivors(before, {}) == before
  {
  }

  lemma NoneLeft(repo: string, listed: seq<string>, before: Tags, keep: set<string>, faults: Faults, gone: set<string>)
    requires forall t :: t in listed <==> t in before
    requires forall k :: 0 <= k < |listed| && Sweeps(repo, before, keep, faults, listed[k]) ==>
               before[listed[k]] in gone
    requires gone <= Doomed(repo, before, keep, faults)
    ensures gone == Doomed(repo, before, keep, faults)
  {
    hide Sweeps;
    forall d | d in Doomed(repo, before, keep, faults) ensures d in gone {
      var t :| t in before && Sweeps(repo, before, keep, faults, t) && before[t] == d;
      var k :| 0 <= k < |listed| && listed[k] == t;
    }
  }

  lemma Gone(before: Tags, gone: set<string>, tag: string)
    requires tag in before
    ensures tag !in Survivors(before, gone) <==> before[tag] in gone
  {
  }

  lemma DeleteOne(before: Tags, gone: set<string>, tag: string)
    requires tag in Survivors(before, gone)
    ensures tag in before && Survivors(before, gone)[tag] == before[tag] && before[tag] !in gone
    ensures Deleted(Survivors(before, gone), before[tag]) == Survivors(before, gone + {before[tag]})
  {
  }

  lemma SweptMeans(repo: string, tags: Tags, keep: set<string>, faults: Faults)
    ensures Swept(repo, tags, keep, faults) ==
            if repo in faults.list then tags else Survivors(tags, Doomed(repo, tags, keep, faults))
  {
  }

  /** A tag is lost exactly when its manifest is that of some tag the sweep prunes. */
  lemma LostTags(repo: string, tags: Tags, keep: set<string>, faults: Faults, tag: string)
    requires tag in tags && repo !in faults.list
    ensures tag !in Swept(repo, tags, keep, faults) <==>
            exists p :: p in tags && tags[p] == tags[tag] && Sweeps(repo, tags, keep, faults, p)
    ensures tag in Swept(repo, tags, keep, faults) ==> Swept(repo, tags, keep, faults)[tag] == tags[tag]
  {
  }

  /** Every tag worth keeping survives a sweep without faults exactly when none shares its manifest with a tag that is
      pruned. */
  lemma KeptTagsSurvive(repo: string, tags: Tags, keep: set<string>)
    ensures var faults := Faults({}, {}, {});
            (forall t :: t in tags && !Prunable(t, keep) ==> t in Swept(repo, tags, keep, faults)) <==>
            (forall t, p :: t in tags && p in tags && !Prunable(t, keep) && Prunable(p, keep) ==> tags[t] != tags[p])
  {
    var faults := Faults({}, {}, {});
    hide Swept, Prunable;
    forall t | t in tags
      ensures t !in Swept(repo, tags, keep, faults) <==>
              exists p :: p in tags && tags[p] == tags[t] && Prunable(p, keep)
    {
      LostTags(repo, tags, keep, faults, t);
      forall p | p in tags ensures Sweeps(repo, tags, keep, faults, p) <==> Prunable(p, keep) {
      }
    }
  }

  /** Two builds of the same image share a manifest, and pruning the older tag takes the newer one with it. */
  lemma RebuildIsLost(repo: string, digest: string)
    ensures var tags := map["v1" := digest, "v2" := digest];
            "v2" !in Swept(repo, tags, {"v2"}, Faults({}, {}, {}))
  {
    var tags: Tags := map["v1" := digest, "v2" := digest];
    assert Sweeps(repo, tags, {"v2"}, Faults({}, {}, {}), "v1");
    LostTags(repo, tags, {"v2"}, Faults({}, {}, {}), "v2");
  }

  /** A tag the panel needs, or the one that holds the build cache. */
  predicate Wanted(images: seq<Option<Image>>, repo: string, tag: string) {
    tag == CACHE_TAG || Some(Image(repo, tag)) in images
  }

  /** What is kept of a repository is what the images name in it. */
  lemma KeepMeans(images: seq<Option<Image>>, repo: string, tag: string)
    ensures tag in KeepFor(images, repo) <==> Some(Image(repo, tag)) in images
    ensures Prunable(tag, KeepFor(images, repo)) <==> !Wanted(images, repo, tag)
  {
    if Some(Image(repo, tag)) in images {
      var i :| 0 <= i < |images| && images[i] == Some(Image(repo, tag));
    }
  }

  /** An image the panel needs keeps its manifest, whatever fails, when every tag of that manifest is wanted. */
  lemma WantedTagsSurvive(images: seq<Option<Image>>, repo: string, tags: Tags, faults: Faults, tag: string)
    requires tag in tags && forall t :: t in tags && tags[t] == tags[tag] ==> Wanted(images, repo, t)
    ensures var after := Swept(repo, tags, KeepFor(images, repo), faults); tag in after && after[tag] == tags[tag]
  {
    hide KeepFor, Prunable, Wanted;
    if repo !in faults.list {
      LostTags(repo, tags, KeepFor(images, repo), faults, tag);
      forall p | p in tags && tags[p] == tags[tag] ensures !Sweeps(repo, tags, KeepFor(images, repo), faults, p) {
        KeepMeans(images, repo, p);
      }
    }
  }

  /** A tag that is not wanted goes, when no call fails. */
  lemma UnwantedTagsGo(images: seq<Option<Image>>, repo: string, tags: Tags, tag: string)
    requires tag in tags && !Wanted(images, repo, tag)
    ensures tag !in Swept(repo, tags, KeepFor(images, repo), Faults({}, {}, {}))
  {
    hide KeepFor, Prunable, Wanted;
    KeepMeans(images, repo, tag);
    LostTags(repo, tags, KeepFor(images, repo), Faults({}, {}, {}), tag);
  }

  // ---------- builds and sweeps ----------

  /** The read-write lock, the builds that went on without it through a restart of the panel, the collector job in the
      cluster, and whether that job is one no sweep waits for. */
  datatype State = State(builds: nat, loose: nat, sweeping: bool, job: bool, orphan: bool)

  const START := State(0, 0, false, false, false)

  datatype Step =
    | BeginBuild | EndBuild
    | LooseEnds                  // a build that a restart cut loose ends in the cluster
    | BeginSweep                 // waits for the builds in flight and holds off new ones
    | DeleteManifests            // the prune, under the lock
    | ClearOldJob                // the job of an earlier sweep is deleted, and seen to be gone
    | StartJob
    | JobEnds                    // in the cluster, at any time
    | EndSweep                   // the sweep's job was seen to finish, or none was started
    | GiveUp                     // the wait failed or timed out
    | Restart                    // the panel starts again with a new lock; what runs in the cluster goes on

  predicate Enabled(s: State, step: Step) {
    match step
    case BeginBuild => !s.sweeping
    case EndBuild => s.builds > 0
    case LooseEnds => s.loose > 0
    case BeginSweep => !s.sweeping && s.builds == 0
    case DeleteManifests => s.sweeping
    case ClearOldJob => s.sweeping && (s.job ==> s.orphan)
    case StartJob => s.sweeping && !s.job
    case JobEnds => s.job
    case EndSweep => s.sweeping && (s.job ==> s.orphan)
    case GiveUp => s.sweeping && s.job && !s.orphan
    case Restart => true
  }

  function Do(s: State, step: Step): State
    requires Enabled(s, step)
  {
    match step
    case BeginBuild => s.(builds := s.builds + 1)
    case EndBuild => s.(builds := s.builds - 1)
    case LooseEnds => s.(loose := s.loose - 1)
    case BeginSweep => s.(sweeping := true)
    case DeleteManifests => s
    case ClearOldJob => s.(job := false, orphan := false)
    case StartJob => s.(job := true, orphan := false)
    case JobEnds => s.(job := false, orphan := false)
    case EndSweep => s.(sweeping := false)
    case GiveUp => s.(sweeping := false, orphan := true)
    case Restart => State(0, s.builds + s.loose, false, s.job, s.job)
  }

  ghost predicate IsRun(run: seq<State>, steps: seq<Step>) {
    && |run| == |steps| + 1 && run[0] == START
    && forall i :: 0 <= i < |steps| ==> Enabled(run[i], steps[i]) && run[i + 1] == Do(run[i], steps[i])
  }

  /** In every run, no manifest is deleted and no collector started while a build that holds the lock is in flight; a
      collector runs beside such a build only if no sweep waits for it any more; and while a collector runs a build may
      begin exactly when it is such a one and no sweep holds the lock. */
  lemma {:induction false} SweepExcludesBuilds(run: seq<State>, steps: seq<Step>, i: nat)
    requires IsRun(run, steps) && i < |run|
    ensures run[i].sweeping ==> run[i].builds == 0
    ensures i < |steps| && steps[i] in {DeleteManifests, ClearOldJob, StartJob} ==> run[i].builds == 0
    ensures run[i].job && run[i].builds > 0 ==> run[i].orphan
    ensures run[i].job && Enabled(run[i], BeginBuild) <==> run[i].orphan && !run[i].sweeping
    ensures run[i].orphan ==> run[i].job
  {
    if i > 0 {
      SweepExcludesBuilds(run, steps, i - 1);
      assert Enabled(run[i - 1], steps[i - 1]) && run[i - 1 + 1] == Do(run[i - 1], steps[i - 1]);
    }
    assert i < |steps| ==> Enabled(run[i], steps[i]);
  }

  predicate Ends(step: Step) { step in {JobEnds, ClearOldJob, StartJob} }

  /** A job lost its sweep at some step, and neither ended nor was cleared since. */
  ghost predicate AbandonedBefore(run: seq<State>, steps: seq<Step>, i: nat)
    requires i <= |steps| && i <= |run|
  {
    exists g :: 0 <= g < i && Abandons(run[g], steps[g]) && forall j :: g < j < i ==> !Ends(steps[j])
  }

  predicate Abandons(s: State, step: Step) { step.GiveUp? || (step.Restart? && s.job) }

  /** What the flag stands for: the sweep that started the running job gave up on it, or the panel started again, and
      the job has gone on since. */
  lemma {:induction false} OrphansWereAbandoned(run: seq<State>, steps: seq<Step>, i: nat)
    requires IsRun(run, steps) && i < |run|
    ensures run[i].orphan <==> AbandonedBefore(run, steps, i)
  {
    assert |run| == |steps| + 1;
    hide AbandonedBefore, IsRun, Do, Enabled, Ends, Abandons;
    if i > 0 {
      OrphansWereAbandoned(run, steps, i - 1);
      SweepExcludesBuilds(run, steps, i - 1);
      StepOf(run, steps, i - 1);
      OrphanStep(run[i - 1], steps[i - 1]);
      AbandonedNext(run, steps, i - 1);
    } else {
      NoneAbandoned(run, steps);
      FirstOf(run, steps);
    }
  }

  lemma OrphanStep(s: State, step: Step)
    requires Enabled(s, step) && (s.orphan ==> s.job)
    ensures Do(s, step).orphan <==> (s.orphan && !Ends(step)) || Abandons(s, step)
  {
  }

  lemma StepOf(run: seq<State>, steps: seq<Step>, i: nat)
    requires IsRun(run, steps) && i < |steps|
    ensures |run| == |steps| + 1 && Enabled(run[i], steps[i]) && run[i + 1] == Do(run[i], steps[i])
  {
  }

  lemma FirstOf(run: seq<State>, steps: seq<Step>)
    requires IsRun(run, steps)
    ensures |run| > 0 && run[0] == START
  {
  }

  lemma NoneAbandoned(run: seq<State>, steps: seq<Step>)
    ensures !AbandonedBefore(run, steps, 0)
  {
  }

  lemma AbandonedNext(run: seq<State>, steps: seq<Step>, i: nat)
    requires i < |steps| && i < |run|
    ensures AbandonedBefore(run, steps, i + 1) <==>
            (AbandonedBefore(run, steps, i) && !Ends(steps[i])) || Abandons(run[i], steps[i])
  {
    hide Ends, Abandons;
    if AbandonedBefore(run, steps, i) && !Ends(steps[i]) {
      var g :| 0 <= g < i && Abandons(run[g], steps[g]) && forall j :: g < j < i ==> !Ends(steps[j]);
      assert forall j :: g < j < i + 1 ==> !Ends(steps[j]);
    }
  }

  /** The only builds a sweep can meet are those that a restart of the panel cut loose. */
  lemma {:induction false} LooseWereRestarted(run: seq<State>, steps: seq<Step>, i: nat)
    requires IsRun(run, steps) && i < |run|
    ensures run[i].loose > 0 ==> exists g :: 0 <= g < i && steps[g].Restart? && run[g].builds > 0
  {
    if i > 0 {
      LooseWereRestarted(run, steps, i - 1);
      assert Enabled(run[i - 1], steps[i - 1]) && run[i - 1 + 1] == Do(run[i - 1], steps[i - 1]);
    }
  }

  /** A sweep that gives up leaves the collector running, and a build can begin beside it. */
  lemma GivingUpLetsBuildsIn() returns (run: seq<State>, steps: seq<Step>)
    ensures IsRun(run, steps) && run[|run| - 1].job && run[|run| - 1].builds == 1
  {
    steps := [BeginSweep, ClearOldJob, StartJob, GiveUp, BeginBuild];
    run := [START, State(0, 0, true, false, false), State(0, 0, true, false, false), State(0, 0, true, true, false),
            State(0, 0, false, true, true), State(1, 0, false, true, true)];
  }

  /** After a restart a sweep can delete manifests while a build from before it goes on. */
  lemma RestartLetsSweepsIn() returns (run: seq<State>, steps: seq<Step>)
    ensures IsRun(run, steps) && |steps| > 0 && steps[|steps| - 1].DeleteManifests? && run[|steps| - 1].loose == 1
  {
    steps := [BeginBuild, Restart, BeginSweep, DeleteManifests];
    run := [START, State(1, 0, false, false, false), State(0, 1, false, false, false), State(0, 1, true, false, false),
            State(0, 1, true, false, false)];
  }
}
