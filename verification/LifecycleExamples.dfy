/** Two runs, step by step, that show why the three guarded properties of LifecycleRuns need their guards. */
module LifecycleExamples {
  import opened RegistrySpec
  import opened RegistryProofs
  import opened Lifecycle
  import opened LifecycleTable
  import opened UploadSlots
  import opened ManifestCache
  import opened LifecycleRuns
  import opened Wrappers

  const CONFIG := Config(10, 0)

  /** The only node, with this load. */
  function Node(load: nat): NodeInfo {
    NodeInfo(0, "n", "a", true, load, {}, false, None, 0)
  }

  function Only(load: nat, reservations: map<string, Reservation>): (r: Registry)
    ensures Valid(r)
  {
    Registry([Node(load)], map[0 := 0], map["n" := 0], reservations)
  }

  const JOIN: Event := Auth(AuthRequest(0, "n", "a", 0, None, None))

  /** Two uploads of the same content into the same room. */
  function Request(id: string): InitRequest {
    InitRequest(true, "r", "f", "h", true, "", id, 0, 60, "n", "n", NoFault)
  }

  const HELD := Reservation("n", 60)

  function Upload(id: string, version: nat, status: Status): Row {
    Row(id, "r", "f", Canonical("r", id), version, "h", status, "n", 0)
  }

  const AFTER_JOIN := State([], Only(0, map[]), [])

  lemma NodeJoins()
    ensures Next(CONFIG, START, JOIN) == AFTER_JOIN
    ensures Admits(CONFIG, START, JOIN, NO_CLAIMS)
  {
    var r := Next(CONFIG, START, JOIN).registry;
    assert r.nodes == [Node(0)];
    assert r.byConnection == map[0 := 0];
  }

  lemma NothingExpires(load: nat, reservations: map<string, Reservation>)
    requires forall rid <- reservations :: reservations[rid] == HELD
    ensures Reap(Only(load, reservations), 0) == Only(load, reservations)
    ensures Eligible(CONFIG, Only(load, reservations), 0) == {"n"}
  {
    var r := Only(load, reservations);
    assert Expired(r, 0) == {};
    DropNone(r);
  }

  lemma SlotIsTaken(load: nat, reservations: map<string, Reservation>, id: string)
    requires forall rid <- reservations :: reservations[rid] == HELD
    requires id != "" && id !in reservations
    ensures Offered(CONFIG, Only(load, reservations), 0, "n", "n")
    ensures Picked(CONFIG, Only(load, reservations), 0, "n", "n") == Some("n")
    ensures Select(CONFIG, Only(load, reservations), 0, id, 60, "n", "n") == Only(load + 1, reservations[id := HELD])
  {
    NothingExpires(load, reservations);
    assert Expiry(0, 60) == 60;
  }

  const AFTER_FIRST := State([Upload("1", 1, UPLOADING)], Only(1, map["1" := HELD]), [])

  lemma FirstUploadStarts()
    ensures Admits(CONFIG, AFTER_JOIN, Init(Request("1")), NO_CLAIMS)
    ensures Next(CONFIG, AFTER_JOIN, Init(Request("1"))) == AFTER_FIRST
  {
    SlotIsTaken(0, map[], "1");
    assert AFTER_JOIN.rows + [Upload("1", 1, UPLOADING)] == AFTER_FIRST.rows;
  }

  const AFTER_DELETE := State([Upload("1", 1, DELETED)], Only(1, map["1" := HELD]), [])

  lemma UserDeletes()
    ensures Admits(CONFIG, AFTER_FIRST, Delete("1", true), NO_CLAIMS)
    ensures Next(CONFIG, AFTER_FIRST, Delete("1", true)) == AFTER_DELETE
  {
    assert UPLOADING in ANY_STATUS;
    assert Next(CONFIG, AFTER_FIRST, Delete("1", true)).rows == AFTER_DELETE.rows;
  }

  /** After a user deletes an upload under way, its node counts a slot that no UPLOADING row has. */
  lemma DeletionLeavesALoad()
    ensures SlotsBacked(AFTER_FIRST.rows, AFTER_FIRST.registry, IN_PROGRESS)
    ensures Next(CONFIG, AFTER_FIRST, Delete("1", true)) == AFTER_DELETE
    ensures AFTER_DELETE.registry.nodes[AFTER_DELETE.registry.byId["n"]].activeUploads == 1
    ensures UploadingOn(AFTER_DELETE.rows, "n") == {}
  {
    UserDeletes();
  }

  const AFTER_SECOND := State([Upload("1", 1, DELETED), Upload("2", 2, UPLOADING)], Only(2, map["1" := HELD, "2" := HELD]), [])

  lemma SecondVersion()
    ensures MaxVersion(AFTER_DELETE.rows, "r", "f") == 1 && ReadyRows(AFTER_DELETE.rows, "h") == []
  {
    assert AFTER_DELETE.rows[1..] == [] && AFTER_DELETE.rows[..0] == [];
  }

  lemma SecondUploadStarts()
    ensures Admits(CONFIG, AFTER_DELETE, Init(Request("2")), NO_CLAIMS)
    ensures Next(CONFIG, AFTER_DELETE, Init(Request("2"))) == AFTER_SECOND
  {
    SlotIsTaken(1, map["1" := HELD], "2");
    SecondVersion();
    assert !HasRoomDuplicate(AFTER_DELETE.rows, "r", "h");
    assert AFTER_DELETE.rows + [Upload("2", 2, UPLOADING)] == AFTER_SECOND.rows;
  }

  /** The late completion of the deleted upload is accepted: two live rows of one room and hash. */
  lemma LateCompletionCollides()
    ensures LiveUnique(AFTER_SECOND.rows)
    ensures UploadComplete(AFTER_SECOND, 0, "1", "h", true).1 == Accepted
    ensures Intrudes(AFTER_SECOND, Complete(0, "1", "h", true))
    ensures Next(CONFIG, AFTER_SECOND, Complete(0, "1", "h", true)).rows == [Upload("1", 1, READY), Upload("2", 2, UPLOADING)]
    ensures !LiveUnique([Upload("1", 1, READY), Upload("2", 2, UPLOADING)])
  {
    assert DELETED in ANY_STATUS;
    assert Lookup(AFTER_SECOND.rows, "1") == Some(Upload("1", 1, DELETED));
    assert LiveElsewhere(AFTER_SECOND.rows, Upload("1", 1, DELETED)) by {
      assert Upload("2", 2, UPLOADING) in AFTER_SECOND.rows;
    }
    assert Next(CONFIG, AFTER_SECOND, Complete(0, "1", "h", true)).rows == [Upload("1", 1, READY), Upload("2", 2, UPLOADING)];
    var rows := [Upload("1", 1, READY), Upload("2", 2, UPLOADING)];
    assert Collide(rows[0], rows[1]);
  }

  /** Some run leads from s to t. */
  ghost predicate Reaches(s: State, t: State) {
    Valid(s.registry) && exists events :: IsRun(CONFIG, s, events, NO_CLAIMS) && After(CONFIG, s, events, NO_CLAIMS) == t
  }

  lemma ReachesItself(s: State)
    requires Valid(s.registry)
    ensures Reaches(s, s)
  {
    assert IsRun(CONFIG, s, [], NO_CLAIMS) && After(CONFIG, s, [], NO_CLAIMS) == s;
  }

  lemma StepFirst(s: State, e: Event, m: State, t: State)
    requires Valid(s.registry) && Admits(CONFIG, s, e, NO_CLAIMS) && Next(CONFIG, s, e) == m && Reaches(m, t)
    ensures Reaches(s, t)
  {
    var rest :| IsRun(CONFIG, m, rest, NO_CLAIMS) && After(CONFIG, m, rest, NO_CLAIMS) == t;
    var events := [e] + rest;
    assert events[1..] == rest;
    assert IsRun(CONFIG, s, events, NO_CLAIMS) && After(CONFIG, s, events, NO_CLAIMS) == t;
  }

  /** The state before the late completion is reached by a run with new ids and one connection. */
  lemma TheStateIsReached()
    ensures Reaches(START, AFTER_SECOND)
  {
    ReachesItself(AFTER_SECOND);
    SecondUploadStarts();
    StepFirst(AFTER_DELETE, Init(Request("2")), AFTER_SECOND, AFTER_SECOND);
    UserDeletes();
    StepFirst(AFTER_FIRST, Delete("1", true), AFTER_DELETE, AFTER_SECOND);
    FirstUploadStarts();
    StepFirst(AFTER_JOIN, Init(Request("1")), AFTER_FIRST, AFTER_SECOND);
    NodeJoins();
    StepFirst(START, JOIN, AFTER_JOIN, AFTER_SECOND);
  }

  // ---------------------------------------------------------------- a delta that unlists a READY row

  /** The only node with a received manifest of these hashes. */
  function Listing(load: nat, reservations: map<string, Reservation>, files: set<string>): (r: Registry)
    ensures Valid(r)
  {
    Registry([Node(load).(files := files, manifestReceived := true)], map[0 := 0], map["n" := 0], reservations)
  }

  const JOIN_LISTING: Event := Auth(AuthRequest(0, "n", "a", 0, None, Some([])))

  const LISTED := State([], Listing(0, map[], {}), [])

  lemma ListingNodeJoins()
    ensures Admits(CONFIG, START, JOIN_LISTING, NO_CLAIMS)
    ensures Next(CONFIG, START, JOIN_LISTING) == LISTED
  {
    NodeJoins();
    assert AuthRegistry(EMPTY, JOIN_LISTING.auth) == Only(0, map[]);
    assert NormalizeAll([]) == {};
    assert SetManifest(Only(0, map[]), "n", []).0 == Listing(0, map[], {});
    assert Reconcile([], "n", {}) == [];
  }

  const LISTED_FIRST := State([Upload("1", 1, UPLOADING)], Listing(1, map["1" := HELD], {}), [])

  lemma ListedUploadStarts()
    ensures Admits(CONFIG, LISTED, Init(Request("1")), NO_CLAIMS)
    ensures Next(CONFIG, LISTED, Init(Request("1"))) == LISTED_FIRST
  {
    var r := LISTED.registry;
    assert Expired(r, 0) == {};
    DropNone(r);
    assert Eligible(CONFIG, r, 0) == {"n"};
    assert Expiry(0, 60) == 60;
    assert LISTED.rows + [Upload("1", 1, UPLOADING)] == LISTED_FIRST.rows;
  }

  const STORED := State([Upload("1", 1, READY)], Listing(0, map[], {"h"}), [Completed("1", "h")])

  lemma HashIsNormal()
    ensures Normalize("h") == "h" && NormalizeAll(["h"]) == {"h"} && NormalizeAll([]) == {}
  {
    assert StripLeft("h") == "h" && StripRight("h") == "h" && Lower("h") == "h";
    assert "h" in ["h"];
  }

  lemma UploadCompletes()
    ensures Admits(CONFIG, LISTED_FIRST, Complete(0, "1", "h", true), NO_CLAIMS)
    ensures Next(CONFIG, LISTED_FIRST, Complete(0, "1", "h", true)) == STORED
  {
    HashIsNormal();
    assert UPLOADING in ANY_STATUS;
    assert Lookup(LISTED_FIRST.rows, "1") == Some(Upload("1", 1, UPLOADING));
    assert Release(LISTED_FIRST.registry, "1") == Listing(0, map[], {});
    var none: set<string> := {};
    assert none + {"h"} == {"h"};
    assert MarkFileAdded(Listing(0, map[], none), "n", "h").nodes == STORED.registry.nodes;
    assert Next(CONFIG, LISTED_FIRST, Complete(0, "1", "h", true)).rows == STORED.rows;
  }

  const UNLISTED := State([Upload("1", 1, READY)], Listing(0, map[], {}), [Completed("1", "h")])

  const UNLIST: Event := ManifestDelta(0, [], ["h"])

  /** The node unlists the hash of a READY row: the event breaks the guard, and the download is refused. */
  lemma DeltaHidesAReadyFile()
    ensures Admits(CONFIG, STORED, UNLIST, NO_CLAIMS) && Unlists(STORED, UNLIST, iset{"n"})
    ensures Next(CONFIG, STORED, UNLIST) == UNLISTED
    ensures ResolveStorageNode(CONFIG, STORED.registry, STORED.rows[0], "", 0) == Served("a")
    ensures ResolveStorageNode(CONFIG, UNLISTED.registry, UNLISTED.rows[0], "", 0) == FileNotOnNode
  {
    HashIsNormal();
    assert Drops(STORED.rows, STORED.registry, "n", ["h"]) by {
      assert STORED.rows[0] in STORED.rows;
    }
    assert {"h"} + NormalizeAll([]) - NormalizeAll(["h"]) == {};
  }

  /** A run from the empty coordinator leads there. */
  lemma TheUnlistedStateIsReached()
    ensures Reaches(START, UNLISTED)
  {
    ReachesItself(UNLISTED);
    DeltaHidesAReadyFile();
    StepFirst(STORED, UNLIST, UNLISTED, UNLISTED);
    UploadCompletes();
    StepFirst(LISTED_FIRST, Complete(0, "1", "h", true), STORED, UNLISTED);
    ListedUploadStarts();
    StepFirst(LISTED, Init(Request("1")), LISTED_FIRST, UNLISTED);
    ListingNodeJoins();
    StepFirst(START, JOIN_LISTING, LISTED, UNLISTED);
  }
}
