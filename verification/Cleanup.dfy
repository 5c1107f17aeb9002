/**
 The cleanup cycle: expired files and abandoned uploads are listed page by page
 behind an id cursor, while the purge of each page deletes from the same table
 and may fail in part.
 */
module Cleanup {
  import opened Wrappers

  type Id = string

  // ---------- Ids in the order of the primary key ----------

  predicate Less(a: Id, b: Id) {
    b != "" && (a == "" || a[0] < b[0] || (a[0] == b[0] && Less(a[1..], b[1..])))
  }

  lemma {:induction false} LessTransitive(a: Id, b: Id, c: Id)
    requires Less(a, b) && Less(b, c)
    ensures Less(a, c)
    decreases |a|
  {
    if a != "" && a[0] == b[0] == c[0] {
      LessTransitive(a[1..], b[1..], c[1..]);
    }
  }

  lemma {:induction false} LessTotal(a: Id, b: Id)
    ensures if a == b then !Less(a, b) && !Less(b, a) else Less(a, b) <==> !Less(b, a)
    decreases |a|
  {
    if a != "" && b != "" && a[0] == b[0] {
      LessTotal(a[1..], b[1..]);
      assert a == [a[0]] + a[1..] && b == [b[0]] + b[1..];
    }
  }

  // The order is that of the first character in which two ids differ; an id comes
  // after all that it starts with.
  lemma {:induction false} LessExactly(a: Id, b: Id)
    ensures Less(a, b) <==> exists k: nat :: FirstDifference(a, b, k) && (k == |a| || a[k] < b[k])
    decreases |a|
  {
    if b == "" {
    } else if a == "" {
      assert FirstDifference(a, b, 0);
    } else if a[0] != b[0] {
      assert FirstDifference(a, b, 0);
    } else {
      LessExactly(a[1..], b[1..]);
      if k: nat :| FirstDifference(a[1..], b[1..], k) && (k == |a[1..]| || a[1..][k] < b[1..][k]) {
        forall i | 0 <= i < k + 1 ensures a[i] == b[i] {
          assert i > 0 ==> a[1..][i - 1] == b[1..][i - 1];
        }
        assert FirstDifference(a, b, k + 1);
      }
      if k: nat :| FirstDifference(a, b, k) && (k == |a| || a[k] < b[k]) {
        assert k > 0;
        assert FirstDifference(a[1..], b[1..], k - 1);
      }
    }
  }

  // a and b agree up to k, where a ends or differs from b.
  predicate FirstDifference(a: Id, b: Id, k: nat) {
    k <= |a| && k < |b| && (forall i :: 0 <= i < k ==> a[i] == b[i]) && (k < |a| ==> a[k] != b[k])
  }

  predicate Increasing(ids: seq<Id>) {
    forall i, j :: 0 <= i < j < |ids| ==> Less(ids[i], ids[j])
  }

  // ---------- The table ----------

  datatype FileRow = FileRow(expiresAt: int, uploading: bool, uploadedAt: int)

  datatype Kind = Expired | Abandoned(olderThanSecs: int)

  predicate Due(kind: Kind, row: FileRow, now: int) {
    match kind
    case Expired => row.expiresAt < now
    case Abandoned(olderThanSecs) => row.uploading && row.uploadedAt < now - olderThanSecs
  }

  // The rows a query wants: due, and behind the cursor.
  predicate Wanted(files: map<Id, FileRow>, kind: Kind, now: int, after: Id, id: Id) {
    id in files && Due(kind, files[id], now) && Less(after, id)
  }

  // The first `limit` wanted ids in increasing order.
  ghost predicate IsPage(files: map<Id, FileRow>, kind: Kind, now: int, after: Id, limit: nat, page: seq<Id>) {
    Increasing(page) && |page| <= limit
    && (forall id :: id in page ==> Wanted(files, kind, now, after, id))
    && (forall id :: Wanted(files, kind, now, after, id) && id !in page ==>
          |page| == limit && forall other :: other in page ==> Less(other, id))
  }

  method LeastOf(ids: set<Id>) returns (least: Id)
    requires ids != {}
    ensures least in ids && forall id :: id in ids && id != least ==> Less(least, id)
  {
    least :| least in ids;
    var rest := ids - {least};
    while rest != {}
      invariant rest <= ids && least in ids && least !in rest
      invariant forall id :: id in ids && id !in rest && id != least ==> Less(least, id)
      decreases |rest|
    {
      var id :| id in rest;
      rest := rest - {id};
      LessTotal(id, least);
      if Less(id, least) {
        forall other | other in ids && other !in rest && other != id ensures Less(id, other) {
          if other != least {
            LessTransitive(id, least, other);
          }
        }
        least := id;
      }
    }
  }

  /** The listing query of either kind. */
  method ListBatch(files: map<Id, FileRow>, kind: Kind, now: int, after: Id, limit: nat) returns (page: seq<Id>)
    ensures IsPage(files, kind, now, after, limit, page)
  {
    page := [];
    ghost var wanted := set id | id in files && Wanted(files, kind, now, after, id);
    var rest := set id | id in files && Wanted(files, kind, now, after, id);
    while |page| < limit && rest != {}
      invariant |page| <= limit && rest <= wanted && Increasing(page)
      invariant forall id :: id in page ==> id in wanted - rest
      invariant forall id :: id in wanted - rest ==> id in page
      invariant forall id, other :: id in rest && other in page ==> Less(other, id)
      decreases |rest|
    {
      var id := LeastOf(rest);
      rest := rest - {id};
      page := page + [id];
    }
  }

  // How the deletion of a batch of rows goes: not at all, in full, or with the
  // statistics left behind.
  datatype Fault = NoFault | BeforeFiles | BeforeStats

  class Database {
    var files: map<Id, FileRow>
    // Ids that have rows in the statistics table.
    var stats: set<Id>
    // The pages handed to a purge so far.
    ghost var purges: seq<seq<Id>>

    constructor (files: map<Id, FileRow>, stats: set<Id>)
      ensures this.files == files && this.stats == stats && purges == []
    {
      this.files, this.stats := files, stats;
      purges := [];
    }

    // Two statements, not one transaction. The statistics are only looked at if
    // some row was deleted.
    method DeleteFilesByIds(ids: seq<Id>, fault: Fault) returns (r: Result<nat, string>)
      modifies this`files, this`stats
      ensures files == if fault == BeforeFiles then old(files) else old(files) - (set id | id in ids)
      ensures stats == if fault == NoFault && exists id :: id in ids && id in old(files)
                       then old(stats) - (set id | id in ids) else old(stats)
      ensures fault == NoFault ==> r == Ok(|old(files).Keys * (set id | id in ids)|)
    {
      ghost var before := files;
      ghost var all := set id | id in ids;
      if fault == BeforeFiles {
        return Err("delete failed");
      }
      if ids == [] {
        return Ok(0);
      }
      var gone := set id | id in ids;
      var affected := |files.Keys * gone|;
      assert affected > 0 <==> exists id :: id in ids && id in before by {
        if id :| id in ids && id in before {
          assert id in before.Keys * gone;
        }
      }
      files := files - gone;
      if affected > 0 {
        if fault == BeforeStats {
          return Err("delete failed");
        }
        stats := stats - gone;
      }
      r := Ok(affected);
    }
  }

  // ---------- The paging loop ----------

  // What the loop has done so far to the table it found as `before`: the ids
  // handed to the purge are due and increase up to the cursor, nothing due at
  // the start was passed over, and only handed ids are gone.
  ghost predicate Progress(
    before: map<Id, FileRow>, files: map<Id, FileRow>, kind: Kind, start: int, now: int, cursor: Id, handed: seq<Id>,
    removable: set<Id>)
  {
    Increasing(handed)
    && (forall id :: id in handed ==> id in before && Due(kind, before[id], now) && Less("", id) && !Less(cursor, id))
    && (forall id :: id in before && Due(kind, before[id], start) && id != "" && !Less(cursor, id) ==> id in handed)
    && (forall id :: id in files ==> id in before && files[id] == before[id])
    && (forall id :: id in before && id !in files ==> id in handed && id in removable)
  }

  lemma NotBehind(cursor: Id, a: Id, b: Id)
    requires !Less(cursor, a) && Less(cursor, b)
    ensures Less(a, b)
  {
    LessTotal(cursor, a);
    if a != cursor {
      LessTransitive(a, cursor, b);
    }
  }

  // Handing out one more page.
  lemma PageAdvances(
      before: map<Id, FileRow>, files: map<Id, FileRow>, kind: Kind, start: int, earlier: int, now: int, cursor: Id,
      handed: seq<Id>, removable: set<Id>, limit: nat, page: seq<Id>)
    requires Progress(before, files, kind, start, earlier, cursor, handed, removable)
    requires start <= earlier <= now && IsPage(files, kind, now, cursor, limit, page) && page != []
    ensures Progress(before, files, kind, start, now, page[|page| - 1], handed + page, removable)
    ensures Less(cursor, page[|page| - 1])
    ensures |page| < limit ==>
      forall id :: id in before && Due(kind, before[id], start) && id != "" ==> id in handed + page
  {
    var last := page[|page| - 1];
    var all := handed + page;
    assert last in page;
    forall i, j | 0 <= i < j < |all| ensures Less(all[i], all[j]) {
      if i < |handed| <= j {
        assert all[i] in handed && all[j] in page;
        NotBehind(cursor, all[i], all[j]);
      }
    }
    forall id | id in all
      ensures id in before && Due(kind, before[id], now) && Less("", id) && !Less(last, id) {
      LessTotal(last, id);
      if id in handed {
        NotBehind(cursor, id, last);
      } else {
        PageIsBehindStart(files, kind, now, cursor, limit, page, id);
      }
    }
    forall id | id in before && Due(kind, before[id], start) && id != "" && id !in all
      ensures Less(last, id) && |page| == limit {
      assert Less(cursor, id);
      assert Wanted(files, kind, now, cursor, id);
    }
  }

  lemma PageIsBehindStart(
      files: map<Id, FileRow>, kind: Kind, now: int, cursor: Id, limit: nat, page: seq<Id>, id: Id)
    requires IsPage(files, kind, now, cursor, limit, page) && id in page
    ensures Less("", id) && !Less(page[|page| - 1], id)
  {
    assert Wanted(files, kind, now, cursor, id);
    var i :| 0 <= i < |page| && page[i] == id;
    LessTotal(page[|page| - 1], id);
    assert i < |page| - 1 ==> Less(page[i], page[|page| - 1]);
  }

  // The environment of a cycle: the clock at each query, which queries fail,
  // which remote deletes succeed, and how each purge of rows goes.
  datatype Environment = Environment(
    clock: nat -> int, queryFails: nat -> bool, remoteOk: Id -> bool, fault: nat -> Fault)
  {
    ghost predicate ClockNeverTurnsBack() {
      forall p: nat, q: nat :: p <= q ==> clock(p) <= clock(q)
    }

    // Nothing fails but remote deletes.
    ghost predicate RowPurgesSucceed() {
      forall p: nat :: fault(p) == NoFault && !queryFails(p)
    }
  }

  // The ids of a page whose files are gone from the storage host. The remote
  // deletes run side by side and finish in any order.
  method DeleteRemotely(page: seq<Id>, remoteOk: Id -> bool) returns (deleted: seq<Id>)
    ensures forall id :: id in deleted <==> id in page && remoteOk(id)
  {
    deleted := [];
    var running := set id | id in page;
    while running != {}
      invariant forall id :: id in running ==> id in page
      invariant forall id :: id in deleted <==> id in page && id !in running && remoteOk(id)
      decreases |running|
    {
      var id :| id in running;
      running := running - {id};
      if remoteOk(id) {
        deleted := deleted + [id];
      }
    }
  }

  predicate Removable(kind: Kind, remoteOk: Id -> bool, id: Id) {
    kind.Abandoned? || remoteOk(id)
  }

  // The ids whose rows a purge of `ids` deletes.
  function Gone(kind: Kind, remoteOk: Id -> bool, ids: seq<Id>): set<Id> {
    set id | id in ids && Removable(kind, remoteOk, id)
  }

  lemma GoneAppend(kind: Kind, remoteOk: Id -> bool, ids: seq<Id>, more: seq<Id>)
    ensures Gone(kind, remoteOk, ids + more) == Gone(kind, remoteOk, ids) + Gone(kind, remoteOk, more)
  {
  }

  // Purges one page: expired files go remotely first, abandoned uploads have
  // nothing to delete there.
  method PurgePage(db: Database, kind: Kind, page: seq<Id>, remoteOk: Id -> bool, fault: Fault)
    requires forall id :: id in page ==> id in db.files
    modifies db
    ensures db.files == if fault == BeforeFiles then old(db.files) else old(db.files) - Gone(kind, remoteOk, page)
    ensures db.stats == if fault == NoFault then old(db.stats) - Gone(kind, remoteOk, page) else old(db.stats)
    ensures db.purges == old(db.purges) + [page]
  {
    db.purges := db.purges + [page];
    var ids := page;
    if kind.Expired? {
      ids := DeleteRemotely(page, remoteOk);
    }
    SameIds(kind, remoteOk, page, ids);
    var r := db.DeleteFilesByIds(ids, fault);
    if ids != [] {
      assert ids[0] in ids && ids[0] in old(db.files);
    }
  }

  lemma SameIds(kind: Kind, remoteOk: Id -> bool, page: seq<Id>, ids: seq<Id>)
    requires forall id :: id in ids <==> id in page && Removable(kind, remoteOk, id)
    ensures (set id | id in ids) == Gone(kind, remoteOk, page)
    ensures ids == [] ==> Gone(kind, remoteOk, page) == {}
  {
  }

  // A page is handed out and purged.
  lemma PageDone(
      before: map<Id, FileRow>, files: map<Id, FileRow>, kind: Kind, remoteOk: Id -> bool, start: int,
      earlier: int, now: int, cursor: Id, handed: seq<Id>, limit: nat, page: seq<Id>, fault: Fault)
    requires Progress(before, files, kind, start, earlier, cursor, handed, Gone(kind, remoteOk, handed))
    requires start <= earlier <= now && IsPage(files, kind, now, cursor, limit, page) && page != []
    ensures Progress(before, if fault == BeforeFiles then files else files - Gone(kind, remoteOk, page), kind,
                     start, now, page[|page| - 1], handed + page, Gone(kind, remoteOk, handed + page))
    ensures Ahead(before, page[|page| - 1]) < Ahead(before, cursor)
    ensures |page| < limit ==>
      forall id :: id in before && Due(kind, before[id], start) && id != "" ==> id in handed + page
  {
    GoneAppend(kind, remoteOk, handed, page);
    PageAdvances(before, files, kind, start, earlier, now, cursor, handed, Gone(kind, remoteOk, handed), limit, page);
    assert page[|page| - 1] in handed + page;
    AheadShrinks(before, cursor, page[|page| - 1]);
  }

  // Ids the cursor has still to pass.
  ghost function Ahead(before: map<Id, FileRow>, cursor: Id): set<Id> {
    set id | id in before && Less(cursor, id)
  }

  lemma AheadShrinks(before: map<Id, FileRow>, cursor: Id, next: Id)
    requires next in before && Less(cursor, next)
    ensures Ahead(before, next) < Ahead(before, cursor)
  {
    forall id | id in Ahead(before, next) ensures id in Ahead(before, cursor) {
      LessTransitive(cursor, next, id);
    }
    LessTotal(next, next);
    assert next in Ahead(before, cursor) && next !in Ahead(before, next);
  }

  // An empty page means nothing is left to hand out.
  lemma NothingLeft(
      before: map<Id, FileRow>, files: map<Id, FileRow>, kind: Kind, start: int, earlier: int, now: int, cursor: Id,
      handed: seq<Id>, removable: set<Id>, limit: nat)
    requires Progress(before, files, kind, start, earlier, cursor, handed, removable)
    requires start <= now && IsPage(files, kind, now, cursor, limit, []) && limit >= 1
    ensures forall id :: id in before && Due(kind, before[id], start) && id != "" ==> id in handed
  {
    forall id | id in before && Due(kind, before[id], start) && id != "" ensures id in handed {
      if id !in handed {
        assert Wanted(files, kind, now, cursor, id);
      }
    }
  }

  lemma EmptyStart(before: map<Id, FileRow>, kind: Kind, start: int)
    ensures Progress(before, before, kind, start, start, "", [], {})
  {
    forall id | id in before && id != "" ensures Less("", id) {
    }
  }

  // ---------- The table after any pattern of faults ----------

  function Joined(pages: seq<seq<Id>>): seq<Id> {
    if pages == [] then [] else Joined(pages[..|pages| - 1]) + pages[|pages| - 1]
  }

  // The file rows once `pages` are purged, page p with what env says of it.
  function FilesAfter(kind: Kind, env: Environment, files: map<Id, FileRow>, pages: seq<seq<Id>>): map<Id, FileRow> {
    if pages == [] then files
    else
      var p := |pages| - 1;
      var before := FilesAfter(kind, env, files, pages[..p]);
      if env.fault(p) == BeforeFiles then before else before - Gone(kind, env.remoteOk, pages[p])
  }

  function StatsAfter(kind: Kind, env: Environment, stats: set<Id>, pages: seq<seq<Id>>): set<Id> {
    if pages == [] then stats
    else
      var p := |pages| - 1;
      var before := StatsAfter(kind, env, stats, pages[..p]);
      if env.fault(p) == NoFault then before - Gone(kind, env.remoteOk, pages[p]) else before
  }

  lemma OneMorePage(kind: Kind, env: Environment, files: map<Id, FileRow>, stats: set<Id>, pages: seq<seq<Id>>,
                    page: seq<Id>)
    ensures var before, p := FilesAfter(kind, env, files, pages), |pages|;
            FilesAfter(kind, env, files, pages + [page])
            == if env.fault(p) == BeforeFiles then before else before - Gone(kind, env.remoteOk, page)
    ensures var before, p := StatsAfter(kind, env, stats, pages), |pages|;
            StatsAfter(kind, env, stats, pages + [page])
            == if env.fault(p) == NoFault then before - Gone(kind, env.remoteOk, page) else before
    ensures Joined(pages + [page]) == Joined(pages) + page
  {
    assert (pages + [page])[..|pages|] == pages;
  }

  // Without faults every page loses all it can, rows and statistics.
  lemma {:induction false} AfterNoFaults(
      kind: Kind, env: Environment, files: map<Id, FileRow>, stats: set<Id>, pages: seq<seq<Id>>)
    requires env.RowPurgesSucceed()
    ensures FilesAfter(kind, env, files, pages) == files - Gone(kind, env.remoteOk, Joined(pages))
    ensures StatsAfter(kind, env, stats, pages) == stats - Gone(kind, env.remoteOk, Joined(pages))
    decreases |pages|
  {
    if pages != [] {
      var p := |pages| - 1;
      AfterNoFaults(kind, env, files, stats, pages[..p]);
      GoneAppend(kind, env.remoteOk, Joined(pages[..p]), pages[p]);
    }
  }

  /** The paging loop of either kind. Whatever fails, every due id is handed to
      the purge exactly once, in increasing order, unless a query fails or the id
      is empty: the cursor starts at the empty id and never goes back to it. The
      rows and statistics left are those of the purges of the pages, and only ids
      that were due and, if expired, gone from the storage host lose their rows. */
  method PurgePages(db: Database, kind: Kind, env: Environment, limit: nat)
    returns (handed: seq<Id>, complete: bool, ghost pages: seq<seq<Id>>)
    requires limit >= 1 && env.ClockNeverTurnsBack()
    modifies db
    ensures db.purges == old(db.purges) + pages && handed == Joined(pages)
    ensures Increasing(handed)
    ensures forall id :: id in handed ==>
      id in old(db.files) && id != "" && exists p: nat :: Due(kind, old(db.files)[id], env.clock(p))
    ensures complete ==>
      forall id :: id in old(db.files) && Due(kind, old(db.files)[id], env.clock(0)) && id != "" ==> id in handed
    ensures complete <==> !env.queryFails(|pages|) || (|pages| > 0 && |pages[|pages| - 1]| < limit)
    ensures db.files == FilesAfter(kind, env, old(db.files), pages)
    ensures db.stats == StatsAfter(kind, env, old(db.stats), pages)
    ensures forall id :: id in db.files ==> id in old(db.files) && db.files[id] == old(db.files)[id]
    ensures forall id :: id in old(db.files) && id !in db.files ==> id in Gone(kind, env.remoteOk, handed)
    ensures env.RowPurgesSucceed() ==>
      db.files == old(db.files) - Gone(kind, env.remoteOk, handed)
      && db.stats == old(db.stats) - Gone(kind, env.remoteOk, handed)
  {
    ghost var before, stats, start := db.files, db.stats, env.clock(0);
    ghost var now := start;
    var cursor, p := "", 0;
    handed, complete, pages := [], true, [];
    EmptyStart(before, kind, start);
    assert db.purges + [] == db.purges;
    while true
      invariant p == |pages| && (pages == [] || |pages[|pages| - 1]| >= limit)
      invariant complete && db.purges == old(db.purges) + pages && handed == Joined(pages)
      invariant start <= now && exists q: nat :: q <= p && now == env.clock(q)
      invariant Progress(before, db.files, kind, start, now, cursor, handed, Gone(kind, env.remoteOk, handed))
      invariant db.files == FilesAfter(kind, env, before, pages)
      invariant db.stats == StatsAfter(kind, env, stats, pages)
      decreases |Ahead(before, cursor)|
    {
      if env.queryFails(p) {
        complete := false;
        break;
      }
      var page := ListBatch(db.files, kind, env.clock(p), cursor, limit);
      if page == [] {
        NothingLeft(before, db.files, kind, start, now, env.clock(p), cursor, handed,
          Gone(kind, env.remoteOk, handed), limit);
        break;
      }
      var fullPage := |page| >= limit;
      PageDone(before, db.files, kind, env.remoteOk, start, now, env.clock(p), cursor, handed, limit, page,
        env.fault(p));
      SmallerSet(Ahead(before, page[|page| - 1]), Ahead(before, cursor));
      OneMorePage(kind, env, before, stats, pages, page);
      Regroup(old(db.purges), pages, [page]);
      now := env.clock(p);
      cursor := page[|page| - 1];
      PurgePage(db, kind, page, env.remoteOk, env.fault(p));
      handed := handed + page;
      pages := pages + [page];
      p := p + 1;
      if !fullPage {
        break;
      }
    }
    if env.RowPurgesSucceed() {
      AfterNoFaults(kind, env, before, stats, pages);
    }
  }

  // The table and the pages handed out in a cycle.
  ghost predicate Cycle(
    before: map<Id, FileRow>, files: map<Id, FileRow>, expired: Environment, abandoned: Environment, kind: Kind,
    pages: seq<seq<Id>>, later: seq<seq<Id>>)
  {
    var between := FilesAfter(Expired, expired, before, pages);
    files == FilesAfter(kind, abandoned, between, later)
    && ((forall q: nat :: !expired.queryFails(q)) ==>
          forall id :: id in before && Due(Expired, before[id], expired.clock(0)) && id != "" ==> id in Joined(pages))
    && ((forall q: nat :: !expired.queryFails(q) && !abandoned.queryFails(q)) ==>
          forall id :: id in between && Due(kind, between[id], abandoned.clock(0)) && id != "" ==> id in Joined(later))
  }

  /** A whole cycle: statistics without a file, expired files, abandoned uploads.
      Whatever row purges and remote deletes fail, every expired file and then
      every abandoned upload is handed out if no query fails, and the rows and
      statistics left are those of the purges of these pages. When no row purge
      and no query fails, no statistics are left without a file, and of the due
      files only those remain whose remote delete failed. */
  method RunCleanupOnce(
      db: Database, sweepOk: bool, expired: Environment, abandoned: Environment, staleSecs: int, limit: nat)
    returns (ghost pages: seq<seq<Id>>, ghost later: seq<seq<Id>>)
    requires limit >= 1 && expired.ClockNeverTurnsBack() && abandoned.ClockNeverTurnsBack()
    modifies db
    ensures db.purges == old(db.purges) + pages + later
    ensures Increasing(Joined(pages)) && Increasing(Joined(later))
    ensures Cycle(old(db.files), db.files, expired, abandoned, Abandoned(staleSecs), pages, later)
    ensures var swept := if sweepOk then old(db.stats) * old(db.files).Keys else old(db.stats);
            db.stats == StatsAfter(Abandoned(staleSecs), abandoned, StatsAfter(Expired, expired, swept, pages), later)
    ensures sweepOk && expired.RowPurgesSucceed() && abandoned.RowPurgesSucceed() ==>
      db.stats == old(db.stats) * db.files.Keys
    ensures expired.RowPurgesSucceed() && abandoned.RowPurgesSucceed() ==>
      forall id :: id in db.files && id != "" ==>
        var row := db.files[id];
        (row.expiresAt < expired.clock(0) ==> !expired.remoteOk(id))
        && !(row.uploading && row.uploadedAt < abandoned.clock(0) - staleSecs)
    ensures forall id :: id in db.files ==> id in old(db.files) && db.files[id] == old(db.files)[id]
    ensures forall id :: id in old(db.files) && id !in db.files ==>
      var row := old(db.files)[id];
      (expired.remoteOk(id) && exists p: nat :: row.expiresAt < expired.clock(p))
      || (row.uploading && exists p: nat :: row.uploadedAt < abandoned.clock(p) - staleSecs)
  {
    if sweepOk {
      db.stats := db.stats * db.files.Keys;
    }
    later := [];
    var purged, complete;
    purged, complete, pages := PurgePages(db, Expired, expired, limit);
    if !complete {
      return;
    }
    var dropped;
    dropped, complete, later := PurgePages(db, Abandoned(staleSecs), abandoned, limit);
    assert Gone(Abandoned(staleSecs), abandoned.remoteOk, dropped) == set id | id in dropped;
  }

  lemma {:induction false} SmallerSet(a: set<Id>, b: set<Id>)
    requires a < b
    ensures |a| < |b|
  {
    var rest := b - a;
    assert b == a + rest && rest != {};
    assert |b| == |a| + |rest|;
  }
}
