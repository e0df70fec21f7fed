/**
 The master's metadata: which chunk servers hold the two replicas of each chunk, and how many replicas each
 server holds.  States are values here; the methods that change them in place are in module Masters.
 */
module MasterMeta {
  import opened Text

  datatype Replica = Replica(id: string, location: string, version: nat)
  datatype Pair = Pair(first: Replica, second: Replica)
  datatype ChunkServer = ChunkServer(location: string, alive: bool, chunkNum: int)

  type Chunks = map<nat, Pair>
  type Files = map<string, Chunks>

  datatype Meta = Meta(files: Files, nodes: seq<ChunkServer>)

  function One(b: bool): nat { if b then 1 else 0 }

  // ----- chunk names -----

  function ChunkId(file: string, index: nat): string {
    file + "-" + Itoa(index)
  }

  /** Whatever the file is called, a chunk's name gives back the file and the index. */
  lemma ChunkIdParses(file: string, index: nat)
    ensures var id := ChunkId(file, index); var dash := LastDash(id);
      dash == |file| && id[..dash] == file && Atoi(id[dash + 1..]) == index
  {
    var id := ChunkId(file, index);
    assert id[|file|] == '-';
    forall i | |file| < i < |id| ensures id[i] != '-' {
      assert id[i] == Itoa(index)[i - |file| - 1];
    }
    assert id[..|file|] == file && id[|file| + 1..] == Itoa(index);
    AtoiItoa(index);
  }

  /** A name whose tail is no number names the first chunk. */
  lemma MalformedIndex(file: string, tail: string, i: nat)
    requires '-' !in tail && i < |tail| && !Digit(tail[i]) && (i == 0 ==> tail[0] != '+')
    ensures var id := file + "-" + tail; var dash := LastDash(id);
      dash == |file| && id[..dash] == file && Atoi(id[dash + 1..]) == 0
  {
    var id := file + "-" + tail;
    assert id[|file|] == '-';
    forall k | |file| < k < |id| ensures id[k] != '-' {
      assert id[k] == tail[k - |file| - 1];
    }
    assert id[..|file|] == file && id[|file| + 1..] == tail;
    AtoiMalformed(tail, i);
  }

  // ----- the changes -----

  /** A server's counter moves once for each replica placed on it. */
  function Counted(node: ChunkServer, a: string, b: string, d: int): ChunkServer {
    node.(chunkNum := node.chunkNum + (if node.location == a then d else 0) + if node.location == b then d else 0)
  }

  function Bumped(nodes: seq<ChunkServer>, a: string, b: string, d: int): (r: seq<ChunkServer>)
    ensures |r| == |nodes|
  {
    seq(|nodes|, i requires 0 <= i < |nodes| => Counted(nodes[i], a, b, d))
  }

  function FreshPair(file: string, index: nat, a: string, b: string): Pair {
    Pair(Replica(ChunkId(file, index), a, 0), Replica(ChunkId(file, index), b, 0))
  }

  function WithChunk(files: Files, file: string, index: nat, pair: Pair): Files {
    var chunks: Chunks := if file in files then files[file] else map[];
    var more: Chunks := chunks[index := pair];
    files[file := more]
  }

  function NewFile(m: Meta, file: string, a: string, b: string): Meta {
    Meta(m.files[file := map[0 := FreshPair(file, 0, a, b)]], Bumped(m.nodes, a, b, 1))
  }

  function AddChunk(m: Meta, file: string, index: nat, a: string, b: string): Meta
    requires file in m.files
  {
    Meta(WithChunk(m.files, file, index, FreshPair(file, index, a, b)), Bumped(m.nodes, a, b, 1))
  }

  ghost function Deleted(m: Meta, file: string): Meta {
    Meta(m.files - {file}, if file in m.files then Lowered(m.nodes, m.files[file]) else m.nodes)
  }

  ghost function Lowered(nodes: seq<ChunkServer>, chunks: Chunks): (r: seq<ChunkServer>)
    ensures |r| == |nodes|
  {
    seq(|nodes|, i requires 0 <= i < |nodes| =>
      nodes[i].(chunkNum := nodes[i].chunkNum - |FileSlots(chunks, nodes[i].location)|))
  }

  /** The replicas of a chunk; an unknown chunk reads as two empty records. */
  function Lookup(files: Files, file: string, index: nat): Pair {
    if file in files && index in files[file] then files[file][index]
    else Pair(Replica("", "", 0), Replica("", "", 0))
  }

  function Touched(pair: Pair, server: string, version: nat): Pair {
    if pair.first.location == server then pair.(first := pair.first.(version := version))
    else if pair.second.location == server then pair.(second := pair.second.(version := version))
    else pair
  }

  function Versioned(m: Meta, file: string, index: nat, server: string, version: nat): Meta {
    m.(files := WithChunk(m.files, file, index, Touched(Lookup(m.files, file, index), server, version)))
  }

  // ----- versions -----

  /** The version of the replica on the reporting server is replaced, of the first one if both are there; every
      name, every location and every other chunk stays. */
  ghost predicate Records(files: Files, files': Files, file: string, index: nat, server: string, version: nat) {
    var p, q := Lookup(files, file, index), Lookup(files', file, index);
    && q.first.id == p.first.id && q.second.id == p.second.id
    && q.first.location == p.first.location && q.second.location == p.second.location
    && (server == p.first.location ==> q.first.version == version && q.second.version == p.second.version)
    && (server != p.first.location ==> q.first.version == p.first.version)
    && (server != p.first.location && server == p.second.location ==> q.second.version == version)
    && (server != p.first.location && server != p.second.location ==> q.second.version == p.second.version)
    && Has(files', file, index)
    && forall f, k: nat :: f != file || k != index ==>
         (Has(files', f, k) <==> Has(files, f, k)) && Lookup(files', f, k) == Lookup(files, f, k)
  }

  lemma VersionedRecords(m: Meta, file: string, index: nat, server: string, version: nat)
    ensures Records(m.files, Versioned(m, file, index, server, version).files, file, index, server, version)
    ensures Versioned(m, file, index, server, version).nodes == m.nodes
  {}

  // ----- replicas of a server -----

  datatype Slot = Slot(file: string, index: nat, first: bool)
  datatype Part = Part(index: nat, first: bool)

  function LocationOf(pair: Pair, first: bool): string {
    if first then pair.first.location else pair.second.location
  }

  /** All replicas that the chunk map places on server w. */
  ghost function Slots(files: Files, w: string): set<Slot> {
    set f, k, b | f in files && k in files[f] && LocationOf(files[f][k], b) == w :: Slot(f, k, b)
  }

  /** The replicas of one file on server w. */
  ghost function FileSlots(chunks: Chunks, w: string): set<Part> {
    set k, b | k in chunks && LocationOf(chunks[k], b) == w :: Part(k, b)
  }

  ghost predicate Has(files: Files, file: string, index: nat) {
    file in files && index in files[file]
  }

  /** Two chunk maps that place all chunks but one alike. */
  ghost predicate SameElsewhere(files: Files, files': Files, file: string, index: nat) {
    forall f, k: nat :: f != file || k != index ==>
      (Has(files, f, k) <==> Has(files', f, k)) &&
      (Has(files, f, k) ==> forall b :: LocationOf(files[f][k], b) == LocationOf(files'[f][k], b))
  }

  lemma SlotsGain(files: Files, files': Files, file: string, index: nat, w: string)
    requires !Has(files, file, index) && Has(files', file, index) && SameElsewhere(files, files', file, index)
    ensures var pair := files'[file][index];
      |Slots(files', w)| == |Slots(files, w)| + One(pair.first.location == w) + One(pair.second.location == w)
  {
    hide Slots;
    var pair := files'[file][index];
    var one := if pair.first.location == w then {Slot(file, index, true)} else {};
    var two := if pair.second.location == w then {Slot(file, index, false)} else {};
    forall s ensures s in Slots(files', w) <==> s in Slots(files, w) + one + two {
      SlotIn(files, w, s);
      SlotIn(files', w, s);
      assert s.file == file && s.index == index ==> (s in one + two <==> LocationOf(pair, s.first) == w);
    }
    SlotIn(files, w, Slot(file, index, true));
    SlotIn(files, w, Slot(file, index, false));
    Union(Slots(files, w), one, two, Slots(files', w));
  }

  lemma Union<T>(s: set<T>, one: set<T>, two: set<T>, all: set<T>)
    requires s !! one && s !! two && one !! two && forall x :: x in all <==> x in s + one + two
    ensures |all| == |s| + |one| + |two|
  {
    assert all == s + one + two;
  }

  lemma SlotIn(files: Files, w: string, s: Slot)
    ensures s in Slots(files, w) <==> Has(files, s.file, s.index) && LocationOf(files[s.file][s.index], s.first) == w
  {}

  lemma PartIn(chunks: Chunks, w: string, p: Part)
    ensures p in FileSlots(chunks, w) <==> p.index in chunks && LocationOf(chunks[p.index], p.first) == w
  {}

  /** Replacing a chunk's record trades its old replicas for the new ones. */
  lemma SlotsReplace(files: Files, file: string, index: nat, pair: Pair, w: string)
    requires file in files && index in files[file]
    ensures var old' := files[file][index];
      |Slots(WithChunk(files, file, index, pair), w)| + One(old'.first.location == w) + One(old'.second.location == w)
      == |Slots(files, w)| + One(pair.first.location == w) + One(pair.second.location == w)
  {
    hide Slots;
    var base := files[file := files[file] - {index}];
    SlotsGain(base, files, file, index, w);
    SlotsGain(base, WithChunk(files, file, index, pair), file, index, w);
  }

  /** Deleting a file takes away exactly its replicas. */
  lemma SlotsDelete(files: Files, file: string, w: string)
    requires file in files
    ensures |Slots(files, w)| == |Slots(files - {file}, w)| + |FileSlots(files[file], w)|
  {
    hide Slots, FileSlots;
    var parts, rest := FileSlots(files[file], w), Slots(files - {file}, w);
    var mine := set p | p in parts :: Slot(file, p.index, p.first);
    SameSize(parts, mine, file);
    forall s ensures s in Slots(files, w) <==> s in rest + mine + {} {
      SlotIn(files, w, s);
      SlotIn(files - {file}, w, s);
      PartIn(files[file], w, Part(s.index, s.first));
      assert s.file == file ==> (s in mine <==> Part(s.index, s.first) in parts);
    }
    forall s | s in mine ensures s !in rest {
      SlotIn(files - {file}, w, s);
    }
    Union(rest, mine, {}, Slots(files, w));
  }

  lemma {:induction false} SameSize(parts: set<Part>, mine: set<Slot>, file: string)
    requires mine == set p | p in parts :: Slot(file, p.index, p.first)
    ensures |mine| == |parts|
    decreases parts
  {
    if parts != {} {
      var p :| p in parts;
      var parts', mine' := parts - {p}, mine - {Slot(file, p.index, p.first)};
      assert mine' == set q | q in parts' :: Slot(file, q.index, q.first);
      SameSize(parts', mine', file);
      assert mine == mine' + {Slot(file, p.index, p.first)};
    }
  }

  // ----- the counters -----

  /** Every server's counter is the number of replicas mapped to it. */
  ghost predicate CountersOk(m: Meta) {
    forall i :: 0 <= i < |m.nodes| ==> m.nodes[i].chunkNum == |Slots(m.files, m.nodes[i].location)|
  }

  ghost predicate Listed(nodes: seq<ChunkServer>, location: string) {
    exists i :: 0 <= i < |nodes| && nodes[i].location == location
  }

  /** Every replica is on a server of the list, or made up with an empty location, which no server has. */
  ghost predicate Known(m: Meta) {
    && !Listed(m.nodes, "")
    && forall f, k: nat, b :: Has(m.files, f, k) ==> Located(m.nodes, LocationOf(m.files[f][k], b))
  }

  ghost predicate Located(nodes: seq<ChunkServer>, location: string) {
    location == "" || Listed(nodes, location)
  }

  ghost predicate DistinctNodes(nodes: seq<ChunkServer>) {
    forall i, j :: 0 <= i < j < |nodes| ==> nodes[i].location != nodes[j].location
  }

  lemma NewFileCounts(m: Meta, file: string, a: string, b: string)
    requires CountersOk(m) && file !in m.files
    ensures CountersOk(NewFile(m, file, a, b))
  {
    hide Slots;
    var m' := NewFile(m, file, a, b);
    forall i | 0 <= i < |m'.nodes| ensures m'.nodes[i].chunkNum == |Slots(m'.files, m'.nodes[i].location)| {
      SlotsGain(m.files, m'.files, file, 0, m.nodes[i].location);
    }
  }

  /** Adding a chunk keeps the counters right exactly when the chunk is absent, or its old replicas are on no
      server of the list: an overwritten record is never counted down. */
  lemma AddChunkCounts(m: Meta, file: string, index: nat, a: string, b: string)
    requires CountersOk(m) && file in m.files
    ensures CountersOk(AddChunk(m, file, index, a, b)) <==>
      (index in m.files[file] ==>
        !Listed(m.nodes, m.files[file][index].first.location) && !Listed(m.nodes, m.files[file][index].second.location))
  {
    hide Slots;
    var m' := AddChunk(m, file, index, a, b);
    forall i | 0 <= i < |m.nodes|
      ensures var w := m.nodes[i].location;
        m'.nodes[i].chunkNum == |Slots(m'.files, w)| + if index !in m.files[file] then 0 else
          One(m.files[file][index].first.location == w) + One(m.files[file][index].second.location == w)
    {
      var w := m.nodes[i].location;
      if index in m.files[file] {
        SlotsReplace(m.files, file, index, FreshPair(file, index, a, b), w);
      } else {
        SlotsGain(m.files, m'.files, file, index, w);
      }
    }
    if index in m.files[file] && CountersOk(m') {
      forall i | 0 <= i < |m.nodes|
        ensures m.nodes[i].location != m.files[file][index].first.location && m.nodes[i].location != m.files[file][index].second.location
      {
        assert m'.nodes[i].chunkNum == |Slots(m'.files, m'.nodes[i].location)|;
      }
    }
  }

  lemma DeletedCounts(m: Meta, file: string)
    requires CountersOk(m)
    ensures CountersOk(Deleted(m, file))
  {
    hide Slots, FileSlots;
    var m' := Deleted(m, file);
    if file in m.files {
      forall i | 0 <= i < |m'.nodes| ensures m'.nodes[i].chunkNum == |Slots(m'.files, m'.nodes[i].location)| {
        SlotsDelete(m.files, file, m.nodes[i].location);
      }
    } else {
      assert m.files - {file} == m.files;
    }
  }

  /** A version update keeps the counters right exactly when the chunk exists or no server has the empty name:
      for an unknown chunk it makes up a record with empty locations. */
  lemma VersionedCounts(m: Meta, file: string, index: nat, server: string, version: nat)
    requires CountersOk(m)
    ensures CountersOk(Versioned(m, file, index, server, version)) <==> Has(m.files, file, index) || !Listed(m.nodes, "")
  {
    hide Slots;
    var m' := Versioned(m, file, index, server, version);
    forall i | 0 <= i < |m.nodes|
      ensures var w := m.nodes[i].location;
        |Slots(m'.files, w)| == |Slots(m.files, w)| + if Has(m.files, file, index) || w != "" then 0 else 2
    {
      var w := m.nodes[i].location;
      if Has(m.files, file, index) {
        SlotsReplace(m.files, file, index, m'.files[file][index], w);
      } else {
        SlotsGain(m.files, m'.files, file, index, w);
      }
    }
    if CountersOk(m') && !Has(m.files, file, index) {
      forall i | 0 <= i < |m.nodes| ensures m.nodes[i].location != "" {
        assert m'.nodes[i].chunkNum == |Slots(m'.files, m'.nodes[i].location)|;
      }
    }
  }

  /** Two servers, one file, and its first chunk added again: both counters say two where one replica is mapped. */
  lemma AddedTwice(file: string, a: string, b: string)
    requires a != b
    ensures var start := Meta(map[], [ChunkServer(a, true, 0), ChunkServer(b, true, 0)]);
      var created := LeaderNext(start, Create(file, a, b));
      var added := LeaderNext(created, Add(file, 0, a, b));
      && Allowed(start, Create(file, a, b)) && CountersOk(created) && Chosen(created.nodes, a, b)
      && added.nodes == [ChunkServer(a, true, 2), ChunkServer(b, true, 2)] && !CountersOk(added)
  {
    var start := Meta(map[], [ChunkServer(a, true, 0), ChunkServer(b, true, 0)]);
    assert ChosenAt(start.nodes, 0, 1);
    assert forall w :: Slots(map[], w) == {};
    NewFileCounts(start, file, a, b);
    var created := NewFile(start, file, a, b);
    assert created.nodes == [ChunkServer(a, true, 1), ChunkServer(b, true, 1)];
    assert ChosenAt(created.nodes, 0, 1);
    assert created.nodes[0].location == created.files[file][0].first.location;
    AddChunkCounts(created, file, 0, a, b);
    assert AddChunk(created, file, 0, a, b).nodes == [ChunkServer(a, true, 2), ChunkServer(b, true, 2)];
  }

  // ----- the choice of servers -----

  /** a and b are the two live servers with the fewest chunks, in some order of ties. */
  ghost predicate Chosen(nodes: seq<ChunkServer>, a: string, b: string) {
    exists i, j :: ChosenAt(nodes, i, j) && nodes[i].location == a && nodes[j].location == b
  }

  ghost predicate ChosenAt(nodes: seq<ChunkServer>, i: int, j: int) {
    && 0 <= i < |nodes| && 0 <= j < |nodes| && i != j && nodes[i].alive && nodes[j].alive
    && (forall k :: 0 <= k < |nodes| && nodes[k].alive ==> nodes[i].chunkNum <= nodes[k].chunkNum)
    && (forall k :: 0 <= k < |nodes| && nodes[k].alive && k != i ==> nodes[j].chunkNum <= nodes[k].chunkNum)
  }

  /** Live servers' counters differ by at most one. */
  ghost predicate Balanced(nodes: seq<ChunkServer>) {
    forall i, j :: 0 <= i < |nodes| && 0 <= j < |nodes| && nodes[i].alive && nodes[j].alive ==>
      nodes[i].chunkNum <= nodes[j].chunkNum + 1
  }

  lemma PlacingBalances(nodes: seq<ChunkServer>, a: string, b: string)
    requires DistinctNodes(nodes) && Balanced(nodes) && Chosen(nodes, a, b)
    ensures Balanced(Bumped(nodes, a, b, 1))
  {
    var i, j :| ChosenAt(nodes, i, j) && nodes[i].location == a && nodes[j].location == b;
    var after := Bumped(nodes, a, b, 1);
    forall k | 0 <= k < |nodes| ensures after[k].chunkNum == nodes[k].chunkNum + One(k == i) + One(k == j) {
      assert k != i ==> nodes[k].location != a;
      assert k != j ==> nodes[k].location != b;
    }
    forall p, q | 0 <= p < |after| && 0 <= q < |after| && after[p].alive && after[q].alive
      ensures after[p].chunkNum <= after[q].chunkNum + 1
    {
      assert nodes[p].chunkNum <= nodes[q].chunkNum + 1;
      assert nodes[p].chunkNum <= nodes[i].chunkNum + 1;
    }
  }

  // ----- runs -----

  datatype Op =
    | Create(file: string, a: string, b: string)
    | Add(file: string, index: nat, a: string, b: string)
    | Delete(file: string)
    | SetVersion(file: string, index: nat, server: string, version: nat)
    | Heartbeat(location: string)
    | TimeUp(location: string)

  function Marked(nodes: seq<ChunkServer>, location: string, alive: bool): (r: seq<ChunkServer>)
    ensures |r| == |nodes|
  {
    seq(|nodes|, i requires 0 <= i < |nodes| => if nodes[i].location == location then nodes[i].(alive := alive) else nodes[i])
  }

  ghost function Heard(nodes: seq<ChunkServer>, location: string): seq<ChunkServer> {
    if Listed(nodes, location) then Marked(nodes, location, true) else nodes + [ChunkServer(location, true, 0)]
  }

  /** What the leader does; a request it refuses changes nothing. */
  ghost function LeaderNext(m: Meta, op: Op): Meta {
    match op
    case Create(f, a, b) => if f in m.files then m else NewFile(m, f, a, b)
    case Add(f, k, a, b) => if f in m.files then AddChunk(m, f, k, a, b) else m
    case Delete(f) => Deleted(m, f)
    case SetVersion(f, k, server, v) => Versioned(m, f, k, server, v)
    case Heartbeat(location) => m.(nodes := Heard(m.nodes, location))
    case TimeUp(location) => m.(nodes := Marked(m.nodes, location, false))
  }

  /** A record that a version report made up for a chunk that was not there. */
  ghost predicate MadeUp(m: Meta, file: string, index: nat) {
    Has(m.files, file, index) && forall b :: LocationOf(m.files[file][index], b) == ""
  }

  /** Servers are chosen by load, have names, and a chunk is added where there is none. Anything may be reported. */
  ghost predicate Allowed(m: Meta, op: Op) {
    match op
    case Create(f, a, b) => Chosen(m.nodes, a, b)
    case Add(f, k, a, b) => Chosen(m.nodes, a, b) && (Has(m.files, f, k) ==> MadeUp(m, f, k))
    case Heartbeat(location) => location != ""
    case _ => true
  }

  ghost predicate Run(m: Meta, ops: seq<Op>, end: Meta)
    decreases |ops|
  {
    if ops == [] then m == end
    else Allowed(m, ops[0]) && Run(LeaderNext(m, ops[0]), ops[1..], end)
  }

  ghost predicate Inv(m: Meta) {
    CountersOk(m) && Known(m) && DistinctNodes(m.nodes)
  }

  ghost predicate SamePlaces(nodes: seq<ChunkServer>, nodes': seq<ChunkServer>) {
    |nodes| <= |nodes'| && forall i :: 0 <= i < |nodes| ==> nodes[i].location == nodes'[i].location
  }

  lemma StaysLocated(nodes: seq<ChunkServer>, nodes': seq<ChunkServer>, location: string)
    requires SamePlaces(nodes, nodes') && Located(nodes, location)
    ensures Located(nodes', location)
  {
    if location != "" {
      var i :| 0 <= i < |nodes| && nodes[i].location == location;
      assert nodes'[i].location == location;
    }
  }

  lemma NextPlaces(m: Meta, op: Op)
    ensures SamePlaces(m.nodes, LeaderNext(m, op).nodes)
  {}

  /** No server without a name joins. */
  lemma NamesKeep(m: Meta, op: Op)
    requires !Listed(m.nodes, "") && Allowed(m, op)
    ensures !Listed(LeaderNext(m, op).nodes, "")
  {
    hide Chosen;
    var nodes := LeaderNext(m, op).nodes;
    forall i | 0 <= i < |nodes| ensures nodes[i].location != "" {
      assert i < |m.nodes| ==> nodes[i].location == m.nodes[i].location;
    }
  }

  lemma ChosenListed(nodes: seq<ChunkServer>, a: string, b: string)
    requires Chosen(nodes, a, b)
    ensures Listed(nodes, a) && Listed(nodes, b)
  {}

  lemma KnownKeeps(m: Meta, op: Op)
    requires Known(m) && Allowed(m, op)
    ensures Known(LeaderNext(m, op))
  {
    hide Chosen, Listed, LeaderNext, Located;
    var m' := LeaderNext(m, op);
    NextPlaces(m, op);
    NamesKeep(m, op);
    forall f, k: nat, b | Has(m'.files, f, k) ensures Located(m'.nodes, LocationOf(m'.files[f][k], b)) {
      PlaceListed(m, op, f, k, b);
      StaysLocated(m.nodes, m'.nodes, LocationOf(m'.files[f][k], b));
    }
  }

  lemma PlaceListed(m: Meta, op: Op, f: string, k: nat, b: bool)
    requires Known(m) && Allowed(m, op) && Has(LeaderNext(m, op).files, f, k)
    ensures Located(m.nodes, LocationOf(LeaderNext(m, op).files[f][k], b))
  {
    hide Chosen, Listed, Heard, Lowered, Bumped, Marked, ChunkId;
    if op.Create? || op.Add? {
      ChosenListed(m.nodes, op.a, op.b);
    }
    if op.SetVersion? && Has(m.files, f, k) {
      assert LocationOf(Touched(m.files[f][k], op.server, op.version), b) == LocationOf(m.files[f][k], b);
    }
    assert Has(m.files, f, k) ==> Located(m.nodes, LocationOf(m.files[f][k], b));
  }

  /** A server that joins holds nothing yet. */
  lemma HeardCounts(m: Meta, location: string)
    requires CountersOk(m) && Known(m) && location != ""
    ensures CountersOk(m.(nodes := Heard(m.nodes, location)))
  {
    if !Listed(m.nodes, location) {
      forall s ensures s !in Slots(m.files, location) {
        SlotIn(m.files, location, s);
        assert Has(m.files, s.file, s.index) ==> Located(m.nodes, LocationOf(m.files[s.file][s.index], s.first));
      }
      assert Slots(m.files, location) == {};
    }
  }

  lemma CountersKeep(m: Meta, op: Op)
    requires CountersOk(m) && Known(m) && Allowed(m, op)
    ensures CountersOk(LeaderNext(m, op))
  {
    hide Slots, NewFile, AddChunk, Deleted, Versioned, Chosen, Heard, Listed;
    match op
    case Create(f, a, b) => if f !in m.files { NewFileCounts(m, f, a, b); }
    case Add(f, k, a, b) =>
      if f in m.files {
        AddChunkCounts(m, f, k, a, b);
        assert Has(m.files, f, k) ==> LocationOf(m.files[f][k], true) == LocationOf(m.files[f][k], false) == "";
      }
    case Delete(f) => DeletedCounts(m, f);
    case SetVersion(f, k, server, v) => VersionedCounts(m, f, k, server, v);
    case Heartbeat(location) => HeardCounts(m, location);
    case TimeUp(location) =>
  }

  lemma DistinctKeeps(m: Meta, op: Op)
    requires DistinctNodes(m.nodes)
    ensures DistinctNodes(LeaderNext(m, op).nodes)
  {}

  lemma {:induction false} RunKeeps(m: Meta, ops: seq<Op>, end: Meta)
    requires Inv(m) && Run(m, ops, end)
    ensures Inv(end)
    decreases |ops|
  {
    hide CountersOk, Known, DistinctNodes, LeaderNext, Allowed;
    if ops != [] {
      CountersKeep(m, ops[0]);
      KnownKeeps(m, ops[0]);
      DistinctKeeps(m, ops[0]);
      RunKeeps(LeaderNext(m, ops[0]), ops[1..], end);
    }
  }

  /** In every run from an empty master, each server's counter is the number of replicas mapped to it; in
      particular it is never negative, so the unsigned decrement never wraps. */
  lemma CountersRun(nodes: seq<ChunkServer>, ops: seq<Op>, end: Meta)
    requires DistinctNodes(nodes) && forall i :: 0 <= i < |nodes| ==> nodes[i].chunkNum == 0 && nodes[i].location != ""
    requires Run(Meta(map[], nodes), ops, end)
    ensures forall i :: 0 <= i < |end.nodes| ==>
      end.nodes[i].chunkNum == |Slots(end.files, end.nodes[i].location)| && end.nodes[i].chunkNum >= 0
  {
    assert forall w :: Slots(map[], w) == {};
    RunKeeps(Meta(map[], nodes), ops, end);
  }

  /** A decrement only meets a positive counter: before a file is deleted, its replicas on a server are counted. */
  lemma DeleteCovered(m: Meta, file: string, i: nat)
    requires Inv(m) && file in m.files && i < |m.nodes|
    ensures |FileSlots(m.files[file], m.nodes[i].location)| <= m.nodes[i].chunkNum
  {
    SlotsDelete(m.files, file, m.nodes[i].location);
  }

  /** With a fixed set of live servers, any number of creations and additions from balanced counters keeps them
      within one of each other. */
  lemma {:induction false} BalanceRun(m: Meta, ops: seq<Op>, end: Meta)
    requires DistinctNodes(m.nodes) && Balanced(m.nodes) && Run(m, ops, end)
    requires forall i :: 0 <= i < |ops| ==> ops[i].Create? || ops[i].Add? || ops[i].SetVersion?
    ensures Balanced(end.nodes)
    decreases |ops|
  {
    hide Balanced, Chosen, DistinctNodes, Bumped;
    if ops != [] {
      var op := ops[0];
      DistinctKeeps(m, op);
      if op.Create? || op.Add? {
        PlacingBalances(m.nodes, op.a, op.b);
      }
      BalanceRun(LeaderNext(m, op), ops[1..], end);
    }
  }

  // ----- names that come back -----

  /** What the leader makes of any requests. */
  ghost function After(m: Meta, ops: seq<Op>): Meta
    decreases |ops|
  {
    if ops == [] then m else After(LeaderNext(m, ops[0]), ops[1..])
  }

  ghost predicate Reports(op: Op, file: string) {
    op.SetVersion? && op.file == file
  }

  /** The requests that make or remove a name on purpose. */
  ghost predicate Names(op: Op, file: string) {
    (op.Create? || op.Delete?) && op.file == file
  }

  lemma NameNext(m: Meta, op: Op, file: string)
    requires !Names(op, file)
    ensures file in LeaderNext(m, op).files <==> file in m.files || Reports(op, file)
  {
    hide Lowered, Bumped, Heard, Marked;
  }

  /** A name that is not in use, because it was never created or was deleted, is taken again by requests that
      neither create nor delete it if and only if one of them reports a version for it. */
  lemma {:induction false} TakenExactly(m: Meta, ops: seq<Op>, file: string)
    requires forall i :: 0 <= i < |ops| ==> !Names(ops[i], file)
    ensures file in After(m, ops).files <==> file in m.files || exists i :: 0 <= i < |ops| && Reports(ops[i], file)
    decreases |ops|
  {
    hide LeaderNext, Reports;
    if ops != [] {
      NameNext(m, ops[0], file);
      TakenExactly(LeaderNext(m, ops[0]), ops[1..], file);
      if i :| 0 <= i < |ops| && Reports(ops[i], file) {
        assert i > 0 ==> Reports(ops[1..][i - 1], file);
      }
      if i :| 0 <= i < |ops[1..]| && Reports(ops[1..][i], file) {
        assert Reports(ops[i + 1], file);
      }
    }
  }

  /** What such a report leaves: a chunk without locations. */
  lemma ReportRevives(m: Meta, file: string, index: nat, server: string, version: nat)
    ensures var after := LeaderNext(Deleted(m, file), SetVersion(file, index, server, version));
      && file in after.files && after.files[file].Keys == {index} && MadeUp(after, file, index)
      && after.files[file][index] == Pair(Replica("", "", if server == "" then version else 0), Replica("", "", 0))
  {
    var gone := Deleted(m, file);
    assert file !in gone.files;
    assert Lookup(gone.files, file, index) == Pair(Replica("", "", 0), Replica("", "", 0));
  }

  // ----- what the chunk map says after a run -----

  /** The requests that make or remove the record of a chunk. */
  ghost predicate Replaces(op: Op, file: string, index: nat) {
    Names(op, file) || (op.Add? && op.file == file && op.index == index)
  }

  /** What the server reported last for the chunk, or v if it reported nothing. */
  ghost function LastReported(ops: seq<Op>, file: string, index: nat, server: string, v: nat): nat
    decreases |ops|
  {
    if ops == [] then v
    else
      var mine := ops[0].SetVersion? && ops[0].file == file && ops[0].index == index && ops[0].server == server;
      LastReported(ops[1..], file, index, server, if mine then ops[0].version else v)
  }

  lemma RecordNext(m: Meta, op: Op, file: string, index: nat)
    requires !Replaces(op, file, index)
    ensures var p, q := Lookup(m.files, file, index), Lookup(LeaderNext(m, op).files, file, index);
      if op.SetVersion? && op.file == file && op.index == index then
        Records(m.files, LeaderNext(m, op).files, file, index, op.server, op.version)
      else q == p
  {
    hide Lowered, Bumped, Heard, Marked, FreshPair;
    if op.SetVersion? {
      hide Versioned;
      VersionedRecords(m, op.file, op.index, op.server, op.version);
    }
  }

  /** After any requests that do not replace a chunk's record, names and locations are as before, and each
      replica's version is the one that its server reported last. */
  lemma {:induction false} VersionsRun(m: Meta, ops: seq<Op>, file: string, index: nat)
    requires forall i :: 0 <= i < |ops| ==> !Replaces(ops[i], file, index)
    ensures var p, q := Lookup(m.files, file, index), Lookup(After(m, ops).files, file, index);
      && q.first == p.first.(version := LastReported(ops, file, index, p.first.location, p.first.version))
      && q.second == p.second.(version := if p.first.location == p.second.location then p.second.version
                                          else LastReported(ops, file, index, p.second.location, p.second.version))
    decreases |ops|
  {
    hide LeaderNext, Lookup;
    if ops != [] {
      RecordNext(m, ops[0], file, index);
      VersionsRun(LeaderNext(m, ops[0]), ops[1..], file, index);
    }
  }

  /** The request gives the chunk two new replicas. */
  ghost predicate Places(m: Meta, op: Op, file: string, index: nat) {
    || (op.Create? && op.file == file && index == 0 && file !in m.files)
    || (op.Add? && op.file == file && op.index == index && file in m.files)
  }

  /** From its placing on, a chunk has the name made of file and index on both servers it was placed on, and each
      server's version is the one it reported last, at first 0. */
  lemma PlacedRun(m: Meta, op: Op, rest: seq<Op>, file: string, index: nat)
    requires Places(m, op, file, index) && op.a != op.b
    requires forall i :: 0 <= i < |rest| ==> !Replaces(rest[i], file, index)
    ensures var files := After(m, [op] + rest).files; var id := file + "-" + Itoa(index);
      Lookup(files, file, index) == Pair(
        Replica(id, op.a, LastReported(rest, file, index, op.a, 0)),
        Replica(id, op.b, LastReported(rest, file, index, op.b, 0)))
  {
    hide Lookup, LastReported, LeaderNext;
    PlacedNext(m, op, file, index);
    assert ([op] + rest)[1..] == rest;
    VersionsRun(LeaderNext(m, op), rest, file, index);
  }

  lemma PlacedNext(m: Meta, op: Op, file: string, index: nat)
    requires Places(m, op, file, index)
    ensures var id := file + "-" + Itoa(index);
      Lookup(LeaderNext(m, op).files, file, index) == Pair(Replica(id, op.a, 0), Replica(id, op.b, 0))
  {}

  ghost predicate Alive(nodes: seq<ChunkServer>, location: string) {
    exists i :: 0 <= i < |nodes| && nodes[i].location == location && nodes[i].alive
  }

  /** Whether a heartbeat was the last sign of the server, or `before` if there was none. */
  ghost function LastSign(ops: seq<Op>, location: string, before: bool): bool
    decreases |ops|
  {
    if ops == [] then before
    else LastSign(ops[1..], location, if ops[0] == Heartbeat(location) then true else if ops[0] == TimeUp(location) then false else before)
  }

  lemma AliveNext(m: Meta, op: Op, location: string)
    ensures Alive(LeaderNext(m, op).nodes, location) <==>
      if op == Heartbeat(location) then true else if op == TimeUp(location) then false else Alive(m.nodes, location)
  {
    hide Slots, FileSlots;
    var nodes, nodes' := m.nodes, LeaderNext(m, op).nodes;
    if i :| 0 <= i < |nodes| && nodes[i].location == location {
      assert nodes'[i].location == location;
    }
    if i :| 0 <= i < |nodes| && nodes[i].location == location && nodes[i].alive {
      assert op != TimeUp(location) ==> nodes'[i].alive;
    }
    if i :| 0 <= i < |nodes'| && nodes'[i].location == location && nodes'[i].alive {
      assert i < |nodes| ==> nodes[i].location == location;
    }
    if op == Heartbeat(location) && !Listed(nodes, location) {
      assert nodes'[|nodes|] == ChunkServer(location, true, 0);
    }
  }

  /** A server counts as alive if and only if its last sign was a heartbeat and not the end of its timer. */
  lemma {:induction false} AliveRun(m: Meta, ops: seq<Op>, location: string)
    ensures Alive(After(m, ops).nodes, location) <==> LastSign(ops, location, Alive(m.nodes, location))
    decreases |ops|
  {
    hide LeaderNext, Alive;
    if ops != [] {
      AliveNext(m, ops[0], location);
      AliveRun(LeaderNext(m, ops[0]), ops[1..], location);
    }
  }

  // ----- where a chunk is read -----

  /** The place of a server in the list as the loop finds it: the last one of that name, and the first place for
      an unknown name. */
  function PlaceOf(nodes: seq<ChunkServer>, location: string): (p: nat)
    ensures nodes != [] ==> p < |nodes|
    ensures p > 0 ==> p < |nodes| && nodes[p].location == location
    ensures forall i :: p < i < |nodes| ==> nodes[i].location != location
  {
    if nodes == [] then 0
    else if nodes[|nodes| - 1].location == location then |nodes| - 1
    else PlaceOf(nodes[..|nodes| - 1], location)
  }

  predicate Up(nodes: seq<ChunkServer>, location: string) {
    nodes != [] && nodes[PlaceOf(nodes, location)].alive
  }

  /** A replica whose server is up, with the highest version among those; the first one if both have it. */
  ghost predicate Freshest(nodes: seq<ChunkServer>, pair: Pair, x: Replica) {
    && (x == pair.first || x == pair.second) && Up(nodes, x.location)
    && (Up(nodes, pair.first.location) ==> pair.first.version <= x.version)
    && (Up(nodes, pair.second.location) ==> pair.second.version <= x.version)
    && (Up(nodes, pair.first.location) && pair.first.version == x.version ==> x == pair.first)
  }

  /** A server of the list is up if it is alive; for an unknown name the first server of the list decides. */
  lemma UpExactly(nodes: seq<ChunkServer>, location: string)
    requires DistinctNodes(nodes)
    ensures Up(nodes, location) <==> if Listed(nodes, location) then Alive(nodes, location) else nodes != [] && nodes[0].alive
  {
    var p := PlaceOf(nodes, location);
    if Listed(nodes, location) {
      var i :| 0 <= i < |nodes| && nodes[i].location == location;
      assert i <= p;
      assert nodes[p].location == location;
    }
  }

  lemma {:induction false} AfterPlaces(m: Meta, ops: seq<Op>)
    ensures SamePlaces(m.nodes, After(m, ops).nodes)
    ensures DistinctNodes(m.nodes) ==> DistinctNodes(After(m, ops).nodes)
    decreases |ops|
  {
    hide LeaderNext, DistinctNodes;
    if ops != [] {
      NextPlaces(m, ops[0]);
      if DistinctNodes(m.nodes) {
        DistinctKeeps(m, ops[0]);
      }
      AfterPlaces(LeaderNext(m, ops[0]), ops[1..]);
    }
  }

  lemma StaysListed(nodes: seq<ChunkServer>, nodes': seq<ChunkServer>, location: string)
    requires SamePlaces(nodes, nodes') && Listed(nodes, location)
    ensures Listed(nodes', location)
  {
    var i :| 0 <= i < |nodes| && nodes[i].location == location;
    assert nodes'[i].location == location;
  }

  /** Where a reader is sent after any run since the chunk was placed: to one of its two servers, whose last sign was
      a heartbeat, and which reported at least the version of the other one if that is alive too. */
  lemma ReadsFreshest(m: Meta, op: Op, rest: seq<Op>, file: string, index: nat, x: Replica)
    requires DistinctNodes(m.nodes) && Places(m, op, file, index) && op.a != op.b
    requires Listed(m.nodes, op.a) && Listed(m.nodes, op.b)
    requires forall i :: 0 <= i < |rest| ==> !Replaces(rest[i], file, index)
    requires var end := After(m, [op] + rest); Freshest(end.nodes, Lookup(end.files, file, index), x)
    ensures x.location == op.a || x.location == op.b
    ensures LastSign([op] + rest, x.location, Alive(m.nodes, x.location))
    ensures x.version == LastReported(rest, file, index, x.location, 0)
    ensures forall w :: (w == op.a || w == op.b) && LastSign([op] + rest, w, Alive(m.nodes, w)) ==>
      LastReported(rest, file, index, w, 0) <= x.version
  {
    hide Lookup, LastReported, LastSign, LeaderNext, After, Alive, DistinctNodes, Listed, Up, Replaces;
    PlacedRun(m, op, rest, file, index);
    var end := After(m, [op] + rest);
    AfterPlaces(m, [op] + rest);
    StaysListed(m.nodes, end.nodes, op.a);
    StaysListed(m.nodes, end.nodes, op.b);
    forall w | w == op.a || w == op.b ensures Up(end.nodes, w) <==> LastSign([op] + rest, w, Alive(m.nodes, w)) {
      UpExactly(end.nodes, w);
      AliveRun(m, [op] + rest, w);
    }
  }

  // ----- followers -----

  /** What a follower does with the leader's backup call; it hears no heartbeats. */
  ghost function FollowerNext(m: Meta, op: Op): Meta {
    match op
    case Heartbeat(_) => m
    case TimeUp(_) => m
    case _ => LeaderNext(m, op)
  }

  ghost predicate Agree(leader: Meta, follower: Meta) {
    && leader.files == follower.files
    && SamePlaces(follower.nodes, leader.nodes)
    && forall i :: 0 <= i < |follower.nodes| ==> follower.nodes[i].chunkNum == leader.nodes[i].chunkNum
  }

  lemma AgreeKeeps(leader: Meta, follower: Meta, op: Op)
    requires Agree(leader, follower)
    ensures Agree(LeaderNext(leader, op), FollowerNext(follower, op))
  {
    hide FileSlots, Slots, Listed;
  }

  ghost function Followed(m: Meta, ops: seq<Op>): Meta
    decreases |ops|
  {
    if ops == [] then m else Followed(FollowerNext(m, ops[0]), ops[1..])
  }

  /** A follower that received every backup call in order has the leader's chunk map, and the leader's counter
      for every server it knows. */
  lemma {:induction false} FollowerAgrees(leader: Meta, follower: Meta, ops: seq<Op>)
    requires Agree(leader, follower)
    ensures Agree(After(leader, ops), Followed(follower, ops))
    decreases |ops|
  {
    hide Agree, LeaderNext, FollowerNext;
    if ops != [] {
      AgreeKeeps(leader, follower, ops[0]);
      FollowerAgrees(LeaderNext(leader, ops[0]), FollowerNext(follower, ops[0]), ops[1..]);
    }
  }
}
