/** Automatic hostnames (internal/cluster/cluster.go, EnsureAutoDomain and freeAutoHostname; internal/kube/naming.go,
    autoHostname). */
module AutoDomain {
  import opened Text

  // ---------- names ----------

  const MAX_LABEL := 63

  /** What the operator configured: a wildcard domain, or only the cluster's address. */
  datatype Config = Config(wildcard: string, address: string)

  datatype App = App(id: string, slug: string, env: string)

  /** `shortHash(text, n)`, left uninterpreted. */
  type Hash = (string, nat) -> string

  function Label(app: App, suffix: string, hash: Hash): string {
    var plain := if app.env != "" && app.env != "production" then app.slug + "-" + app.env else app.slug;
    var full := if suffix != "" then plain + "-" + suffix else plain;
    if |full| > MAX_LABEL then TrimRight(full[..MAX_LABEL - 7], {'-'}) + "-" + hash(full, 6) else full
  }

  /** A label is never longer than DNS allows, with six characters of hash. */
  lemma LabelFits(app: App, suffix: string, hash: Hash)
    requires forall text :: |hash(text, 6)| == 6
    ensures |Label(app, suffix, hash)| <= MAX_LABEL
  {
  }

  function TrimStar(domain: string): string { if "*." <= domain then domain[2..] else domain }

  function Dashed(address: string): string {
    if address == "" then ""
    else
      var last := address[|address| - 1];
      Dashed(address[..|address| - 1]) + [if last == '.' then '-' else last]
  }

  /** Empty when there is neither a wildcard domain nor an address. */
  function Hostname(app: App, config: Config, suffix: string, hash: Hash): (host: string)
    ensures host == "" <==> config.wildcard == "" && config.address == ""
  {
    var name := Label(app, suffix, hash);
    if config.wildcard != "" then name + "." + TrimStar(TrimSpace(config.wildcard))
    else if config.address == "" then ""
    else name + "." + Dashed(config.address) + ".sslip.io"
  }

  /** Under one configuration two hostnames are equal exactly when their labels are: apps clash by label alone. */
  lemma HostnamesClash(a: App, b: App, config: Config, suffixA: string, suffixB: string, hash: Hash)
    requires config.wildcard != "" || config.address != ""
    ensures Hostname(a, config, suffixA, hash) == Hostname(b, config, suffixB, hash) <==>
            Label(a, suffixA, hash) == Label(b, suffixB, hash)
  {
    hide Label;
    var la, lb := Label(a, suffixA, hash), Label(b, suffixB, hash);
    var tail := if config.wildcard != "" then "." + TrimStar(TrimSpace(config.wildcard))
                else "." + Dashed(config.address) + ".sslip.io";
    assert Hostname(a, config, suffixA, hash) == la + tail && Hostname(b, config, suffixB, hash) == lb + tail;
    if la + tail == lb + tail {
      assert |la| == |lb|;
      assert (la + tail)[..|la|] == la && (lb + tail)[..|lb|] == lb;
    }
  }

  function Preferred(app: App, config: Config, hash: Hash): string { Hostname(app, config, "", hash) }

  function Suffixed(app: App, config: Config, hash: Hash): string { Hostname(app, config, hash(app.id, 5), hash) }

  // ---------- rows ----------

  datatype Row = Row(host: string, app: string, auto: bool, tls: bool)

  predicate Held(rows: seq<Row>, host: string) { exists r :: r in rows && r.host == host }

  /** Who holds a hostname; empty when it is free. */
  function Owner(rows: seq<Row>, host: string): (app: string)
    ensures Held(rows, host) ==> exists r :: r in rows && r.host == host && r.app == app
    ensures !Held(rows, host) ==> app == ""
  {
    if rows == [] then ""
    else if rows[0].host == host then assert rows[0] in rows; rows[0].app
    else
      assert Held(rows, host) <==> Held(rows[1..], host) by {
        assert rows == [rows[0]] + rows[1..];
      }
      Owner(rows[1..], host)
  }

  /** The app's automatic row: its index, or the number of rows when it has none. */
  function AutoRow(rows: seq<Row>, app: string): (i: nat)
    ensures i <= |rows|
    ensures i < |rows| ==> rows[i].auto && rows[i].app == app
    ensures forall j :: 0 <= j < i ==> !(rows[j].auto && rows[j].app == app)
  {
    if rows == [] then 0 else if rows[0].auto && rows[0].app == app then 0 else 1 + AutoRow(rows[1..], app)
  }

  datatype Outcome = Kept | Gave | Moved | NoAddress | NoneFree | Conflict

  function FreeHostname(rows: seq<Row>, app: App, config: Config, hash: Hash): Option<string> {
    var preferred, suffixed := Preferred(app, config, hash), Suffixed(app, config, hash);
    if preferred == "" then Some("")
    else if Owner(rows, preferred) in {"", app.id} then Some(preferred)
    else if Owner(rows, suffixed) in {"", app.id} then Some(suffixed)
    else None
  }

  /** The table after EnsureAutoDomain. Two rows may not share a hostname. */
  function Ensured(rows: seq<Row>, app: App, config: Config, hash: Hash): (seq<Row>, Outcome) {
    var tls := config.wildcard != "";
    var i := AutoRow(rows, app.id);
    if i < |rows| && rows[i].tls == tls && rows[i].host != ""
       && rows[i].host in {Preferred(app, config, hash), Suffixed(app, config, hash)} then (rows, Kept)
    else
      var host := FreeHostname(rows, app, config, hash);
      if host.None? then (rows, NoneFree)
      else if host.value == "" then (rows, NoAddress)
      else if i < |rows| then
        if rows[i].host != host.value && Held(rows, host.value) then (rows, Conflict)
        else (rows[i := rows[i].(host := host.value, tls := tls)], Moved)
      else if Held(rows, host.value) then (rows, Conflict)
      else (rows + [Row(host.value, app.id, true, tls)], Gave)
  }

  class Cluster {
    const hash: Hash
    var rows: seq<Row>

    constructor (hash: Hash)
      ensures this.hash == hash && rows == []
    {
      this.hash, this.rows := hash, [];
    }

    method FreeAutoHostname(app: App, config: Config) returns (host: Option<string>)
      ensures host == FreeHostname(rows, app, config, hash)
    {
      hide Hostname, Owner;
      var preferred := Preferred(app, config, hash);
      if preferred == "" {
        return Some("");
      }
      var owner := Owner(rows, preferred);
      if owner == "" || owner == app.id {
        return Some(preferred);
      }
      var suffixed := Suffixed(app, config, hash);
      owner := Owner(rows, suffixed);
      if owner == "" || owner == app.id {
        return Some(suffixed);
      }
      return None;
    }

    method EnsureAutoDomain(app: App, config: Config) returns (outcome: Outcome)
      modifies this`rows
      ensures (rows, outcome) == Ensured(old(rows), app, config, hash)
    {
      hide Hostname, FreeHostname, AutoRow;
      var tls := config.wildcard != "";
      var current := |rows|;
      for i := 0 to |rows|
        invariant current == |rows|
        invariant forall j :: 0 <= j < i ==> !(rows[j].auto && rows[j].app == app.id)
      {
        if rows[i].auto && rows[i].app == app.id {
          current := i;
          break;
        }
      }
      FirstAuto(rows, app.id, current);
      if current < |rows| && rows[current].tls == tls {
        var candidates := [Preferred(app, config, hash), Suffixed(app, config, hash)];
        for i := 0 to 2
          invariant forall j :: 0 <= j < i ==> !(candidates[j] != "" && rows[current].host == candidates[j])
        {
          if candidates[i] != "" && rows[current].host == candidates[i] {
            return Kept;
          }
        }
        assert candidates[0] == Preferred(app, config, hash) && candidates[1] == Suffixed(app, config, hash);
      }
      var host := FreeAutoHostname(app, config);
      if host.None? {
        return NoneFree;
      }
      if host.value == "" {
        return NoAddress;
      }
      if current < |rows| {
        if rows[current].host != host.value && Held(rows, host.value) {
          return Conflict;
        }
        rows := rows[current := rows[current].(host := host.value, tls := tls)];
        return Moved;
      }
      if Held(rows, host.value) {
        return Conflict;
      }
      rows := rows + [Row(host.value, app.id, true, tls)];
      return Gave;
    }
  }

  lemma FirstAuto(rows: seq<Row>, app: string, i: nat)
    requires i <= |rows| && (i < |rows| ==> rows[i].auto && rows[i].app == app)
    requires forall j :: 0 <= j < i ==> !(rows[j].auto && rows[j].app == app)
    ensures AutoRow(rows, app) == i
  {
  }

  // ---------- runs ----------

  datatype Step =
    | Ensure(app: App)
    | AddDomain(owner: string, host: string)     // somebody's own domain
    | DropDomain(host: string)                 // and its removal
    | DeleteApp(owner: string)

  function Without(rows: seq<Row>, drop: Row -> bool): seq<Row> {
    if rows == [] then []
    else
      var last := rows[|rows| - 1];
      Without(rows[..|rows| - 1], drop) + if drop(last) then [] else [last]
  }

  function Do(rows: seq<Row>, step: Step, config: Config, hash: Hash): seq<Row> {
    match step
    case Ensure(app) => Ensured(rows, app, config, hash).0
    case AddDomain(app, host) => if Held(rows, host) then rows else rows + [Row(host, app, false, true)]
    case DropDomain(host) => Without(rows, (r: Row) => !r.auto && r.host == host)
    case DeleteApp(app) => Without(rows, (r: Row) => r.app == app)
  }

  /** What an app id stands for; an app's name does not change. */
  type Apps = map<string, App>

  predicate Known(apps: Apps, app: App) { app.id != "" && app.id in apps && apps[app.id] == app }

  /** What the table keeps: an owner for every row, one row per hostname, one automatic row per app, and that row's name
      is the preferred or the suffixed one. */
  ghost predicate Good(rows: seq<Row>, apps: Apps, config: Config, hash: Hash) {
    && (forall r :: r in rows ==> r.app != "")
    && (forall i, j :: 0 <= i < j < |rows| ==> rows[i].host != rows[j].host)
    && (forall i, j :: 0 <= i < j < |rows| ==> !(rows[i].auto && rows[j].auto && rows[i].app == rows[j].app))
    && (forall r :: r in rows && r.auto ==> Fitting(r, apps, config, hash))
  }

  ghost predicate Fitting(r: Row, apps: Apps, config: Config, hash: Hash) {
    && r.app in apps && apps[r.app].id == r.app
    && r.host != "" && r.host in {Preferred(apps[r.app], config, hash), Suffixed(apps[r.app], config, hash)}
    && r.tls == (config.wildcard != "")
  }

  ghost predicate HasAuto(rows: seq<Row>, app: string, host: string) {
    exists r :: r in rows && r.auto && r.app == app && r.host == host
  }

  predicate Allowed(step: Step, apps: Apps) {
    match step
    case Ensure(app) => Known(apps, app)
    case AddDomain(app, host) => app != "" && host != ""
    case _ => true
  }

  /** With the configuration unchanged, an app that has an automatic hostname keeps it. */
  lemma EnsureKeeps(rows: seq<Row>, apps: Apps, config: Config, hash: Hash, app: App)
    requires Good(rows, apps, config, hash) && Known(apps, app) && AutoRow(rows, app.id) < |rows|
    ensures Ensured(rows, app, config, hash) == (rows, Kept)
  {
    hide Hostname;
    var r := rows[AutoRow(rows, app.id)];
    assert r in rows && Fitting(r, apps, config, hash);
  }

  lemma EnsureKeepsGood(rows: seq<Row>, apps: Apps, config: Config, hash: Hash, app: App)
    requires Good(rows, apps, config, hash) && Known(apps, app)
    ensures Good(Ensured(rows, app, config, hash).0, apps, config, hash)
  {
    hide Hostname, Owner;
    var (after, outcome) := Ensured(rows, app, config, hash);
    if AutoRow(rows, app.id) < |rows| {
      EnsureKeeps(rows, apps, config, hash, app);
    } else if outcome.Gave? {
      var r := after[|rows|];
      assert after == rows + [r];
      forall i | 0 <= i < |rows| ensures rows[i].host != r.host {
        assert rows[i] in rows;
      }
      assert Fitting(r, apps, config, hash);
    }
  }

  lemma {:induction false} WithoutMembers(rows: seq<Row>, drop: Row -> bool)
    ensures forall r :: r in Without(rows, drop) <==> r in rows && !drop(r)
  {
    if rows != [] {
      var front, last := rows[..|rows| - 1], rows[|rows| - 1];
      WithoutMembers(front, drop);
      assert rows == front + [last];
      assert forall r :: r in rows <==> r in front || r == last;
    }
  }

  lemma {:induction false} WithoutKeeps(rows: seq<Row>, drop: Row -> bool, apps: Apps, config: Config, hash: Hash)
    requires Good(rows, apps, config, hash)
    ensures Good(Without(rows, drop), apps, config, hash)
    ensures forall r :: r in Without(rows, drop) <==> r in rows && !drop(r)
  {
    hide Good;
    WithoutMembers(rows, drop);
    if rows != [] {
      var front, last := rows[..|rows| - 1], rows[|rows| - 1];
      assert rows == front + [last];
      FrontIsGood(front, last, apps, config, hash);
      WithoutKeeps(front, drop, apps, config, hash);
      if drop(last) {
        assert Without(rows, drop) == Without(front, drop);
      } else {
        SnocKeeps(Without(front, drop), front, last, apps, config, hash);
      }
    }
  }

  lemma FrontIsGood(front: seq<Row>, last: Row, apps: Apps, config: Config, hash: Hash)
    requires Good(front + [last], apps, config, hash)
    ensures Good(front, apps, config, hash)
  {
    hide Fitting;
    var rows := front + [last];
    assert forall i :: 0 <= i < |front| ==> rows[i] == front[i];
    forall r | r in front ensures r in rows {
      var i :| 0 <= i < |front| && front[i] == r;
      assert rows[i] == r;
    }
  }

  lemma SnocKeeps(kept: seq<Row>, front: seq<Row>, last: Row, apps: Apps, config: Config, hash: Hash)
    requires Good(kept, apps, config, hash) && Good(front + [last], apps, config, hash)
    requires forall r :: r in kept ==> r in front
    ensures Good(kept + [last], apps, config, hash)
  {
    hide Fitting;
    var rows, all := front + [last], kept + [last];
    assert rows[|front|] == last && last in rows;
    forall i | 0 <= i < |kept|
      ensures kept[i].host != last.host && !(kept[i].auto && last.auto && kept[i].app == last.app)
    {
      assert kept[i] in front;
      var j :| 0 <= j < |front| && front[j] == kept[i];
      assert rows[j] == kept[i];
    }
  }

  lemma StepKeepsGood(rows: seq<Row>, step: Step, apps: Apps, config: Config, hash: Hash)
    requires Good(rows, apps, config, hash) && Allowed(step, apps)
    ensures Good(Do(rows, step, config, hash), apps, config, hash)
  {
    hide Fitting, Ensured;
    match step
    case Ensure(app) => EnsureKeepsGood(rows, apps, config, hash, app);
    case AddDomain(app, host) =>
      if !Held(rows, host) {
        forall i | 0 <= i < |rows| ensures rows[i].host != host { assert rows[i] in rows; }
      }
    case DropDomain(host) => WithoutKeeps(rows, (r: Row) => !r.auto && r.host == host, apps, config, hash);
    case DeleteApp(app) => WithoutKeeps(rows, (r: Row) => r.app == app, apps, config, hash);
  }

  lemma StepKeepsHost(rows: seq<Row>, step: Step, apps: Apps, config: Config, hash: Hash, app: string, host: string)
    requires Good(rows, apps, config, hash) && Allowed(step, apps) && HasAuto(rows, app, host)
    requires step != DeleteApp(app)
    ensures HasAuto(Do(rows, step, config, hash), app, host)
  {
    hide Fitting, FreeHostname, Hostname;
    var r :| r in rows && r.auto && r.app == app && r.host == host;
    match step
    case Ensure(a) =>
      if AutoRow(rows, a.id) < |rows| {
        EnsureKeeps(rows, apps, config, hash, a);
      } else {
        var after := Ensured(rows, a, config, hash).0;
        assert r in after;
      }
    case AddDomain(_, _) => assert r in Do(rows, step, config, hash);
    case DropDomain(h) =>
      WithoutKeeps(rows, (r: Row) => !r.auto && r.host == h, apps, config, hash);
    case DeleteApp(a) =>
      WithoutKeeps(rows, (r: Row) => r.app == a, apps, config, hash);
  }

  ghost predicate IsRun(run: seq<seq<Row>>, steps: seq<Step>, apps: Apps, config: Config, hash: Hash) {
    && |run| == |steps| + 1 && run[0] == []
    && forall i :: 0 <= i < |steps| ==> Allowed(steps[i], apps) && run[i + 1] == Do(run[i], steps[i], config, hash)
  }

  lemma {:induction false} RunStaysGood(run: seq<seq<Row>>, steps: seq<Step>, apps: Apps, config: Config, hash: Hash,
                                        i: nat)
    requires IsRun(run, steps, apps, config, hash) && i < |run|
    ensures Good(run[i], apps, config, hash)
  {
    hide Do, Fitting;
    if i > 0 {
      RunStaysGood(run, steps, apps, config, hash, i - 1);
      assert Allowed(steps[i - 1], apps) && run[i - 1 + 1] == Do(run[i - 1], steps[i - 1], config, hash);
      StepKeepsGood(run[i - 1], steps[i - 1], apps, config, hash);
    }
  }

  /** In every run under one configuration, an app's automatic hostname never changes while the app exists, whatever
      other apps come and go; it is always the preferred or the suffixed name; and no two apps ever hold the same. */
  lemma {:induction false} HostnameIsStable(run: seq<seq<Row>>, steps: seq<Step>, apps: Apps, config: Config,
                                            hash: Hash, i: nat, j: nat, app: string, host: string)
    requires IsRun(run, steps, apps, config, hash) && i <= j < |run| && HasAuto(run[i], app, host)
    requires forall k :: i <= k < j ==> steps[k] != DeleteApp(app)
    ensures HasAuto(run[j], app, host)
    ensures forall other :: HasAuto(run[j], app, other) ==> other == host
    ensures forall a :: HasAuto(run[j], a, host) ==> a == app
    ensures app in apps && host in {Preferred(apps[app], config, hash), Suffixed(apps[app], config, hash)}
    decreases j - i
  {
    hide Do, Hostname;
    RunStaysGood(run, steps, apps, config, hash, j);
    if i < j {
      HostnameIsStable(run, steps, apps, config, hash, i, j - 1, app, host);
      RunStaysGood(run, steps, apps, config, hash, j - 1);
      assert Allowed(steps[j - 1], apps) && run[j - 1 + 1] == Do(run[j - 1], steps[j - 1], config, hash);
      StepKeepsHost(run[j - 1], steps[j - 1], apps, config, hash, app, host);
    }
    OneEach(run[j], apps, config, hash, app, host);
  }

  lemma OneEach(rows: seq<Row>, apps: Apps, config: Config, hash: Hash, app: string, host: string)
    requires Good(rows, apps, config, hash) && HasAuto(rows, app, host)
    ensures forall other :: HasAuto(rows, app, other) ==> other == host
    ensures forall a :: HasAuto(rows, a, host) ==> a == app
    ensures app in apps && host in {Preferred(apps[app], config, hash), Suffixed(apps[app], config, hash)}
  {
    hide Hostname;
    var r :| r in rows && r.auto && r.app == app && r.host == host;
    var i :| 0 <= i < |rows| && rows[i] == r;
    assert Fitting(r, apps, config, hash);
    forall s | s in rows && s.auto && (s.app == app || s.host == host) ensures s.app == app && s.host == host {
      var k :| 0 <= k < |rows| && rows[k] == s;
      assert i == k;
    }
  }

  /** Which name an app without one is given, by who holds its two names. The preferred one when it is free; the
      suffixed one when another app holds the preferred and it is free; an error when other apps hold both. A name that
      the app itself holds, as a domain of its own, is chosen and then refused, so the app is left without an automatic
      address. */
  lemma FirstName(rows: seq<Row>, apps: Apps, config: Config, hash: Hash, app: App)
    requires Good(rows, apps, config, hash) && Known(apps, app) && AutoRow(rows, app.id) == |rows|
    ensures var (after, outcome) := Ensured(rows, app, config, hash);
            var p, s := Preferred(app, config, hash), Suffixed(app, config, hash);
            var ownsP, ownsS := Owner(rows, p), Owner(rows, s);
            && (outcome.NoAddress? <==> config.wildcard == "" && config.address == "")
            && (HasAuto(after, app.id, p) <==> p != "" && ownsP == "")
            && (outcome.Gave? <==> p != "" && (ownsP == "" || (ownsP != app.id && ownsS == "")))
            && (outcome.Gave? && ownsP != "" ==> HasAuto(after, app.id, s))
            && (outcome.NoneFree? <==> p != "" && ownsP !in {"", app.id} && ownsS !in {"", app.id})
            && (outcome.Conflict? <==> p != "" && (ownsP == app.id || (ownsP != "" && ownsS == app.id)))
            && (!outcome.Gave? ==> after == rows && forall h :: !HasAuto(after, app.id, h))
  {
    hide Preferred, Suffixed, Owner, AutoRow, Good, HasAuto, Ensured;
    var p, s, tls := Preferred(app, config, hash), Suffixed(app, config, hash), config.wildcard != "";
    var ownsP, ownsS := Owner(rows, p), Owner(rows, s);
    ByOwners(rows, apps, config, hash, app);
    NoAutoYet(rows, app.id);
    NoName(app, config, hash);
    if p != "" && ownsP == "" {
      AutoAppended(rows, Row(p, app.id, true, tls));
    } else if p != "" && ownsP != app.id && ownsS == "" {
      AutoAppended(rows, Row(s, app.id, true, tls));
    }
  }

  lemma ByOwners(rows: seq<Row>, apps: Apps, config: Config, hash: Hash, app: App)
    requires Good(rows, apps, config, hash) && Known(apps, app) && AutoRow(rows, app.id) == |rows|
    ensures var p, s, tls := Preferred(app, config, hash), Suffixed(app, config, hash), config.wildcard != "";
            var ownsP, ownsS := Owner(rows, p), Owner(rows, s);
            Ensured(rows, app, config, hash) ==
              if p == "" then (rows, NoAddress)
              else if ownsP == "" then (rows + [Row(p, app.id, true, tls)], Gave)
              else if ownsP == app.id then (rows, Conflict)
              else if ownsS == "" then (rows + [Row(s, app.id, true, tls)], Gave)
              else if ownsS == app.id then (rows, Conflict)
              else (rows, NoneFree)
  {
    hide Preferred, Suffixed, Owner, AutoRow, Good, Held;
    var p, s := Preferred(app, config, hash), Suffixed(app, config, hash);
    OwnerIsEmpty(rows, apps, config, hash, p);
    OwnerIsEmpty(rows, apps, config, hash, s);
    NoName(app, config, hash);
  }

  lemma NoName(app: App, config: Config, hash: Hash)
    ensures Preferred(app, config, hash) == "" <==> config.wildcard == "" && config.address == ""
    ensures Suffixed(app, config, hash) == "" <==> config.wildcard == "" && config.address == ""
  {
  }

  lemma AutoAppended(rows: seq<Row>, row: Row)
    requires row.auto && forall h :: !HasAuto(rows, row.app, h)
    ensures forall h :: HasAuto(rows + [row], row.app, h) <==> h == row.host
  {
    assert (rows + [row])[|rows|] == row;
    forall h ensures HasAuto(rows + [row], row.app, h) <==> h == row.host {
      assert !HasAuto(rows, row.app, h);
      assert forall r :: r in rows + [row] <==> r in rows || r == row;
    }
  }

  lemma OwnerIsEmpty(rows: seq<Row>, apps: Apps, config: Config, hash: Hash, host: string)
    requires Good(rows, apps, config, hash)
    ensures Owner(rows, host) == "" <==> !Held(rows, host)
  {
    hide Owner;
  }

  lemma NoAutoYet(rows: seq<Row>, app: string)
    requires AutoRow(rows, app) == |rows|
    ensures forall h :: !HasAuto(rows, app, h)
  {
    hide AutoRow;
  }

  /** An app whose owner added its preferred name as a domain of its own gets no automatic address, although its
      suffixed name is free. */
  lemma OwnDomainBlocks(config: Config, hash: Hash, app: App)
    requires app.id != "" && Preferred(app, config, hash) !in {"", Suffixed(app, config, hash)}
    ensures var rows := [Row(Preferred(app, config, hash), app.id, false, true)];
            Ensured(rows, app, config, hash) == (rows, Conflict) && Owner(rows, Suffixed(app, config, hash)) == ""
  {
    hide Hostname;
    var rows := [Row(Preferred(app, config, hash), app.id, false, true)];
    assert rows[1..] == [] && rows[0] in rows;
  }

  // ---------- after a change of configuration ----------

  /** What the table keeps whatever the configuration: an owner for every row, and one row per hostname. */
  ghost predicate Tidy(rows: seq<Row>) {
    && (forall r :: r in rows ==> r.app != "")
    && forall i, j :: 0 <= i < j < |rows| ==> rows[i].host != rows[j].host
  }

  /** The automatic row would be given as it is. */
  predicate StillFits(row: Row, app: App, config: Config, hash: Hash) {
    && row.tls == (config.wildcard != "") && row.host != ""
    && row.host in {Preferred(app, config, hash), Suffixed(app, config, hash)}
  }

  /** What becomes of an app that has an automatic row, under any configuration: it is kept when it still fits;
      otherwise it moves to the preferred name when that is free or its own automatic name, and to the suffixed one
      likewise when another app holds the preferred; a name that the app holds as a domain of its own is chosen and
      then refused; and without a move the row stays as it was. */
  lemma MoveName(rows: seq<Row>, config: Config, hash: Hash, app: App)
    requires Tidy(rows) && app.id != "" && AutoRow(rows, app.id) < |rows|
    ensures var row := rows[AutoRow(rows, app.id)];
            var fits := StillFits(row, app, config, hash);
            var (after, outcome) := Ensured(rows, app, config, hash);
            var p, s := Preferred(app, config, hash), Suffixed(app, config, hash);
            var ownsP, ownsS := Owner(rows, p), Owner(rows, s);
            && (outcome.Kept? <==> fits)
            && (outcome.NoAddress? <==> !fits && config.wildcard == "" && config.address == "")
            && (outcome.Conflict? <==> !fits && p != "" && (if ownsP == app.id then row.host != p
                                                           else ownsP != "" && ownsS == app.id && row.host != s))
            && (outcome.NoneFree? <==> !fits && p != "" && ownsP !in {"", app.id} && ownsS !in {"", app.id})
            && (outcome.Moved? ==> HasAuto(after, app.id, if ownsP in {"", app.id} then p else s))
            && (!outcome.Moved? ==> after == rows) && !outcome.Gave?
  {
    hide Preferred, Suffixed, Owner, AutoRow, Ensured, Tidy, StillFits;
    var i := AutoRow(rows, app.id);
    MoveByOwners(rows, config, hash, app);
    NoName(app, config, hash);
    var (after, outcome) := Ensured(rows, app, config, hash);
    if outcome.Moved? {
      assert after[i] in after;
    }
  }

  lemma MoveByOwners(rows: seq<Row>, config: Config, hash: Hash, app: App)
    requires Tidy(rows) && app.id != "" && AutoRow(rows, app.id) < |rows|
    ensures var i, tls := AutoRow(rows, app.id), config.wildcard != "";
            var p, s := Preferred(app, config, hash), Suffixed(app, config, hash);
            var ownsP, ownsS := Owner(rows, p), Owner(rows, s);
            Ensured(rows, app, config, hash) ==
              if StillFits(rows[i], app, config, hash) then (rows, Kept)
              else if p == "" then (rows, NoAddress)
              else if ownsP == "" || (ownsP == app.id && rows[i].host == p) then
                (rows[i := rows[i].(host := p, tls := tls)], Moved)
              else if ownsP == app.id then (rows, Conflict)
              else if ownsS == "" || (ownsS == app.id && rows[i].host == s) then
                (rows[i := rows[i].(host := s, tls := tls)], Moved)
              else if ownsS == app.id then (rows, Conflict)
              else (rows, NoneFree)
  {
    hide Preferred, Suffixed, Owner, AutoRow, Tidy, Held;
    var p, s := Preferred(app, config, hash), Suffixed(app, config, hash);
    NoName(app, config, hash);
    FreeIsNotHeld(rows, p);
    FreeIsNotHeld(rows, s);
  }

  lemma FreeIsNotHeld(rows: seq<Row>, host: string)
    requires Tidy(rows)
    ensures Owner(rows, host) == "" <==> !Held(rows, host)
  {
    hide Owner;
  }

  /** An app whose new preferred name is a domain of its own keeps the address of the old configuration. */
  lemma StaleAddressStays(config: Config, hash: Hash, app: App, stale: string, tls: bool)
    requires app.id != "" && Preferred(app, config, hash) != ""
    requires stale !in {Preferred(app, config, hash), Suffixed(app, config, hash)}
    ensures var rows := [Row(stale, app.id, true, tls), Row(Preferred(app, config, hash), app.id, false, true)];
            Ensured(rows, app, config, hash) == (rows, Conflict)
  {
    hide Hostname;
    var own := Row(Preferred(app, config, hash), app.id, false, true);
    var rows := [Row(stale, app.id, true, tls), own];
    assert rows[1..] == [own] && rows[1] in rows;
  }

  // ---------- how a hostname is made ----------

  /** What every automatic hostname ends in. */
  function Domain(config: Config): string {
    if config.wildcard != "" then TrimStar(TrimSpace(config.wildcard)) else Dashed(config.address) + ".sslip.io"
  }

  /** The first label of a hostname is the app's, and the rest is the same for all apps. */
  lemma HostnameParts(app: App, config: Config, suffix: string, hash: Hash)
    requires config.wildcard != "" || config.address != ""
    requires '.' !in Label(app, suffix, hash)
    ensures var host, first := Hostname(app, config, suffix, hash), Label(app, suffix, hash);
            IndexOf(host, '.') == |first| && host[..|first|] == first && host[|first| + 1..] == Domain(config)
  {
    hide Label, IndexOf;
    var host, first := Hostname(app, config, suffix, hash), Label(app, suffix, hash);
    assert host == first + ['.'] + Domain(config);
    IndexOfAppend(first, '.', Domain(config));
  }

  /** A label that is not too long is the slug, the environment unless it is empty or production, and the suffix
      unless it is empty, joined by dashes. */
  lemma LabelMeans(app: App, suffix: string, hash: Hash)
    ensures var parts := [app.slug] + (if app.env in {"", "production"} then [] else [app.env])
                       + (if suffix == "" then [] else [suffix]);
            |Join(parts, "-")| <= MAX_LABEL ==> Label(app, suffix, hash) == Join(parts, "-")
  {
    hide Join;
    LabelParts(app, suffix);
  }

  /** A longer one keeps its start and ends in a hash of the whole. */
  lemma LongLabelMeans(app: App, suffix: string, hash: Hash, full: string)
    requires full == Join([app.slug] + (if app.env in {"", "production"} then [] else [app.env])
                          + (if suffix == "" then [] else [suffix]), "-")
    requires |full| > MAX_LABEL
    ensures Label(app, suffix, hash) == TrimRight(full[..56], {'-'}) + "-" + hash(full, 6)
  {
    hide Join;
    LabelParts(app, suffix);
  }

  lemma LabelParts(app: App, suffix: string)
    ensures var plain := if app.env in {"", "production"} then app.slug else app.slug + "-" + app.env;
            Join([app.slug] + (if app.env in {"", "production"} then [] else [app.env])
                 + (if suffix == "" then [] else [suffix]), "-") ==
              if suffix == "" then plain else plain + "-" + suffix
  {
    var env := if app.env in {"", "production"} then [] else [app.env];
    var end := if suffix == "" then [] else [suffix];
    var parts := [app.slug] + env + end;
    if env == [] && end == [] {
      assert parts == [app.slug];
    } else if env == [] {
      assert parts == [app.slug, suffix] && parts[1..] == [suffix];
    } else if end == [] {
      assert parts == [app.slug, app.env] && parts[1..] == [app.env];
    } else {
      assert parts == [app.slug, app.env, suffix] && parts[1..] == [app.env, suffix] && parts[1..][1..] == [suffix];
      assert Join(parts[1..], "-") == app.env + "-" + suffix;
      assert app.slug + "-" + app.env + "-" + suffix == app.slug + "-" + (app.env + "-" + suffix);
    }
  }

  /** What all hostnames end in: the wildcard domain with or without its star, or the address with dashes for dots. */
  lemma DomainMeans(domain: string, address: string, i: nat)
    requires domain != "" && TrimSpace(domain) == domain && TrimSpace("*." + domain) == "*." + domain
    requires !("*." <= domain) && i < |address|
    ensures Domain(Config("*." + domain, address)) == domain == Domain(Config(domain, address))
    ensures var d := Domain(Config("", address));
            && |d| == |address| + 9 && d[|address|..] == ".sslip.io"
            && d[i] == if address[i] == '.' then '-' else address[i]
  {
    hide TrimSpace;
    assert ("*." + domain)[2..] == domain;
    DashedMeans(address, i);
    var d := Dashed(address) + ".sslip.io";
    assert d[|address|..] == ".sslip.io";
  }

  lemma {:induction false} DashedMeans(address: string, i: nat)
    requires i <= |address|
    ensures |Dashed(address)| == |address|
    ensures i < |address| ==> Dashed(address)[i] == if address[i] == '.' then '-' else address[i]
  {
    if address != "" {
      DashedMeans(address[..|address| - 1], if i < |address| - 1 then i else 0);
    }
  }

  /** An app's two names: the label, and the label with five characters of a hash of the app's id, before one domain. */
  lemma TwoNames(app: App, config: Config, hash: Hash)
    requires config.wildcard != "" || config.address != ""
    requires |hash(app.id, 5)| == 5 && |Label(app, "", hash)| + 6 <= MAX_LABEL
    requires app.env in {"", "production"} || |app.slug| + 1 + |app.env| <= MAX_LABEL
    requires app.env in {"", "production"} ==> |app.slug| <= MAX_LABEL
    ensures var first := Label(app, "", hash);
            && Preferred(app, config, hash) == first + "." + Domain(config)
            && Suffixed(app, config, hash) == first + "-" + hash(app.id, 5) + "." + Domain(config)
            && Preferred(app, config, hash) != Suffixed(app, config, hash)
  {
    hide TrimSpace, Dashed;
    var first := Label(app, "", hash);
    assert Label(app, hash(app.id, 5), hash) == first + "-" + hash(app.id, 5);
    if config.wildcard == "" {
      assert first + "." + Dashed(config.address) + ".sslip.io" == first + "." + Domain(config);
    }
    assert |Suffixed(app, config, hash)| == |Preferred(app, config, hash)| + 6;
  }
}
