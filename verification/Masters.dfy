/**
 The master process: the functions that change the chunk map and the server list in place, the leader's
 request handlers, and the handlers with which a follower takes over the leader's changes.
 */
module Masters {
  import opened Common
  import opened Text
  import opened MasterMeta

  /** A handler's answer: an error number, a chunk, an index out of range in the server list, or none yet. */
  datatype Reply = Errornum(n: int) | Placed(id: string, location: string) | Updated | Crashed | Trying

  /** What a reader is told: an error number, that both servers are dead, or where the chunk is. */
  datatype Found = Missing(n: int) | NoServer | NoList | Found(id: string, location: string, live: seq<string>)

  /** The chunk map has two new replicas under the name and the first location that the reply gives. */
  ghost predicate Answered(r: Reply, files: Files, file: string, index: nat, a: string, b: string) {
    && r.Placed? && r.location == a && Has(files, file, index)
    && files[file][index] == Pair(Replica(r.id, a, 0), Replica(r.id, b, 0))
  }

  // ----- choosing two servers -----

  ghost predicate SameNodes(a: seq<ChunkServer>, b: seq<ChunkServer>) {
    forall n :: n in a <==> n in b
  }

  predicate Ascending(nodes: seq<ChunkServer>) {
    forall i, j :: 0 <= i < j < |nodes| ==> nodes[i].chunkNum <= nodes[j].chunkNum
  }

  method LiveNodes(nodes: seq<ChunkServer>) returns (metas: seq<ChunkServer>)
    requires DistinctNodes(nodes)
    ensures DistinctNodes(metas) && forall n :: n in metas <==> n in nodes && n.alive
  {
    metas := [];
    for i := 0 to |nodes|
      invariant DistinctNodes(metas) && forall n :: n in metas <==> n in nodes[..i] && n.alive
    {
      assert nodes[..i + 1] == nodes[..i] + [nodes[i]];
      if nodes[i].alive {
        forall j | 0 <= j < |metas| ensures metas[j].location != nodes[i].location {
          assert metas[j] in nodes[..i];
        }
        metas := metas + [nodes[i]];
      }
    }
    assert nodes[..|nodes|] == nodes;
  }

  method Insert(sorted: seq<ChunkServer>, x: ChunkServer) returns (r: seq<ChunkServer>)
    requires Ascending(sorted) && DistinctNodes(sorted) && forall i :: 0 <= i < |sorted| ==> sorted[i].location != x.location
    ensures Ascending(r) && DistinctNodes(r) && |r| == |sorted| + 1
    ensures forall n :: n in r <==> n in sorted || n == x
  {
    hide Ascending, DistinctNodes;
    var p := |sorted|;
    while p > 0 && x.chunkNum < sorted[p - 1].chunkNum
      invariant 0 <= p <= |sorted| && forall i :: p <= i < |sorted| ==> x.chunkNum < sorted[i].chunkNum
    {
      p := p - 1;
    }
    r := sorted[..p] + [x] + sorted[p..];
    InsertAscending(sorted, x, p);
    InsertDistinct(sorted, x, p);
    InsertMembers(sorted, x, p);
  }

  lemma InsertAscending(sorted: seq<ChunkServer>, x: ChunkServer, p: nat)
    requires Ascending(sorted) && p <= |sorted| && forall i :: p <= i < |sorted| ==> x.chunkNum < sorted[i].chunkNum
    requires p > 0 ==> sorted[p - 1].chunkNum <= x.chunkNum
    ensures Ascending(sorted[..p] + [x] + sorted[p..])
  {
    var r := sorted[..p] + [x] + sorted[p..];
    forall i | 0 <= i < |r| ensures r[i] == if i < p then sorted[i] else if i == p then x else sorted[i - 1] {}
    forall i | 0 <= i < p ensures sorted[i].chunkNum <= x.chunkNum {
      assert i < p - 1 ==> sorted[i].chunkNum <= sorted[p - 1].chunkNum;
    }
  }

  lemma InsertDistinct(sorted: seq<ChunkServer>, x: ChunkServer, p: nat)
    requires DistinctNodes(sorted) && p <= |sorted| && forall i :: 0 <= i < |sorted| ==> sorted[i].location != x.location
    ensures DistinctNodes(sorted[..p] + [x] + sorted[p..])
  {
    var r := sorted[..p] + [x] + sorted[p..];
    forall i | 0 <= i < |r| ensures r[i] == if i < p then sorted[i] else if i == p then x else sorted[i - 1] {}
  }

  lemma InsertMembers(sorted: seq<ChunkServer>, x: ChunkServer, p: nat)
    requires p <= |sorted|
    ensures forall n :: n in sorted[..p] + [x] + sorted[p..] <==> n in sorted || n == x
  {
    forall n ensures n in sorted <==> n in sorted[..p] || n in sorted[p..] {
      assert sorted == sorted[..p] + sorted[p..];
    }
  }

  /** sort.Sort with the comparison of chunk counts. */
  method SortByCount(metas: seq<ChunkServer>) returns (sorted: seq<ChunkServer>)
    requires DistinctNodes(metas)
    ensures Ascending(sorted) && DistinctNodes(sorted) && SameNodes(sorted, metas) && |sorted| == |metas|
  {
    hide Ascending;
    sorted := [];
    NoneAscending();
    for i := 0 to |metas|
      invariant Ascending(sorted) && DistinctNodes(sorted) && SameNodes(sorted, metas[..i]) && |sorted| == i
    {
      assert metas[..i + 1] == metas[..i] + [metas[i]];
      forall j | 0 <= j < |sorted| ensures sorted[j].location != metas[i].location {
        assert sorted[j] in metas[..i];
      }
      sorted := Insert(sorted, metas[i]);
    }
    assert metas[..|metas|] == metas;
  }

  lemma NoneAscending()
    ensures Ascending([])
  {}

  lemma FirstTwoChosen(nodes: seq<ChunkServer>, sorted: seq<ChunkServer>)
    requires DistinctNodes(nodes) && |sorted| >= 2 && Ascending(sorted) && DistinctNodes(sorted)
    requires forall n :: n in sorted <==> n in nodes && n.alive
    ensures Chosen(nodes, sorted[0].location, sorted[1].location)
  {
    assert sorted[0] in nodes && sorted[1] in nodes;
    var i :| 0 <= i < |nodes| && nodes[i] == sorted[0];
    var j :| 0 <= j < |nodes| && nodes[j] == sorted[1];
    forall k | 0 <= k < |nodes| && nodes[k].alive
      ensures nodes[i].chunkNum <= nodes[k].chunkNum
      ensures nodes[k] != sorted[0] ==> nodes[j].chunkNum <= nodes[k].chunkNum
    {
      assert nodes[k] in sorted;
      var q :| 0 <= q < |sorted| && sorted[q] == nodes[k];
      assert q > 1 ==> sorted[1].chunkNum <= sorted[q].chunkNum;
    }
    assert ChosenAtBut(nodes, i, j, sorted[0]);
    ChosenBut(nodes, i, j, sorted[0]);
  }

  ghost predicate ChosenAtBut(nodes: seq<ChunkServer>, i: int, j: int, least: ChunkServer) {
    && 0 <= i < |nodes| && 0 <= j < |nodes| && i != j && nodes[i].alive && nodes[j].alive
    && nodes[i] == least
    && (forall k :: 0 <= k < |nodes| && nodes[k].alive ==> nodes[i].chunkNum <= nodes[k].chunkNum)
    && (forall k :: 0 <= k < |nodes| && nodes[k].alive && nodes[k] != least ==> nodes[j].chunkNum <= nodes[k].chunkNum)
  }

  lemma ChosenBut(nodes: seq<ChunkServer>, i: int, j: int, least: ChunkServer)
    requires DistinctNodes(nodes) && ChosenAtBut(nodes, i, j, least)
    ensures Chosen(nodes, nodes[i].location, nodes[j].location)
  {
    forall k | 0 <= k < |nodes| && nodes[k].alive && k != i ensures nodes[j].chunkNum <= nodes[k].chunkNum {
      assert nodes[k].location != nodes[i].location;
    }
    assert ChosenAt(nodes, i, j);
  }

  /** The two live servers with the fewest chunks; nothing exactly when fewer than two are alive, where the
      original indexes past its list. */
  method PickTwo(nodes: seq<ChunkServer>) returns (r: Option<(string, string)>)
    requires DistinctNodes(nodes)
    ensures r.Some? ==> Chosen(nodes, r.value.0, r.value.1)
    ensures r.None? <==> forall i, j :: 0 <= i < |nodes| && 0 <= j < |nodes| && nodes[i].alive && nodes[j].alive ==> i == j
  {
    hide Ascending, Chosen;
    var metas := LiveNodes(nodes);
    var sorted := SortByCount(metas);
    if |sorted| >= 2 {
      assert sorted[0] in nodes && sorted[1] in nodes;
      FirstTwoChosen(nodes, sorted);
      r := Some((sorted[0].location, sorted[1].location));
    } else {
      forall i, j | 0 <= i < |nodes| && 0 <= j < |nodes| && nodes[i].alive && nodes[j].alive ensures i == j {
        assert nodes[i] in sorted && nodes[j] in sorted;
      }
      r := None;
    }
  }

  // ----- retrying until both servers answer -----

  /** One attempt to place a chunk: the timers that ran out since the last one, and whether the two chosen
      servers can be reached. */
  datatype Round = Round(lost: seq<string>, first: bool, second: bool)

  /** What the attempts so far led to. */
  datatype Choice = Both(first: string, second: string) | TooFew | NoAnswer

  predicate Answers(round: Round) {
    round.first && round.second
  }

  function Silenced(nodes: seq<ChunkServer>, lost: seq<string>): (r: seq<ChunkServer>)
    ensures |r| == |nodes|
  {
    if lost == [] then nodes else Marked(Silenced(nodes, lost[..|lost| - 1]), lost[|lost| - 1], false)
  }

  lemma {:induction false} SilencedDistinct(nodes: seq<ChunkServer>, lost: seq<string>)
    requires DistinctNodes(nodes)
    ensures DistinctNodes(Silenced(nodes, lost))
  {
    if lost != [] {
      SilencedDistinct(nodes, lost[..|lost| - 1]);
    }
  }

  lemma SilencedNext(nodes: seq<ChunkServer>, lost: seq<string>, location: string)
    ensures Silenced(nodes, lost + [location]) == Marked(Silenced(nodes, lost), location, false)
  {
    assert (lost + [location])[..|lost|] == lost;
  }

  function TimeUps(lost: seq<string>): seq<Op> {
    seq(|lost|, i requires 0 <= i < |lost| => TimeUp(lost[i]))
  }

  /** Timers that run out while the master retries are steps of the leader's run. */
  lemma {:induction false} SilencedRun(m: Meta, lost: seq<string>, k: nat)
    requires k <= |lost|
    ensures Run(m.(nodes := Silenced(m.nodes, lost[..k])), TimeUps(lost)[k..], m.(nodes := Silenced(m.nodes, lost)))
    decreases |lost| - k
  {
    if k == |lost| {
      assert lost[..k] == lost && TimeUps(lost)[k..] == [];
    } else {
      SilencedRun(m, lost, k + 1);
      assert lost[..k + 1] == lost[..k] + [lost[k]];
      SilencedNext(m.nodes, lost[..k], lost[k]);
      assert TimeUps(lost)[k..][1..] == TimeUps(lost)[k + 1..];
    }
  }

  // ----- deleting, chunk by chunk -----

  /** The counters when the chunks in left are still to be counted down. */
  ghost predicate Partly(nodes: seq<ChunkServer>, now: seq<ChunkServer>, chunks: Chunks, left: Chunks) {
    && |now| == |nodes|
    && forall i :: 0 <= i < |nodes| ==>
        now[i] == nodes[i].(chunkNum := nodes[i].chunkNum - |FileSlots(chunks, nodes[i].location)| + |FileSlots(left, nodes[i].location)|)
  }

  lemma FileSlotsLess(chunks: Chunks, k: nat, w: string)
    requires k in chunks
    ensures |FileSlots(chunks, w)| == |FileSlots(chunks - {k}, w)|
      + One(chunks[k].first.location == w) + One(chunks[k].second.location == w)
  {
    hide FileSlots;
    var one := if chunks[k].first.location == w then {Part(k, true)} else {};
    var two := if chunks[k].second.location == w then {Part(k, false)} else {};
    var rest := chunks - {k};
    forall p ensures p in FileSlots(chunks, w) <==> p in FileSlots(rest, w) + one + two {
      PartIn(chunks, w, p);
      PartIn(rest, w, p);
      assert p.index == k ==> (p in one + two <==> LocationOf(chunks[k], p.first) == w);
    }
    PartIn(rest, w, Part(k, true));
    PartIn(rest, w, Part(k, false));
    Union(FileSlots(rest, w), one, two, FileSlots(chunks, w));
  }

  lemma PartlyLess(nodes: seq<ChunkServer>, now: seq<ChunkServer>, chunks: Chunks, left: Chunks, k: nat)
    requires Partly(nodes, now, chunks, left) && k in left
    ensures Partly(nodes, Bumped(now, left[k].first.location, left[k].second.location, -1), chunks, left - {k})
  {
    hide FileSlots;
    forall i | 0 <= i < |nodes|
      ensures |FileSlots(left, nodes[i].location)| == |FileSlots(left - {k}, nodes[i].location)|
        + One(left[k].first.location == nodes[i].location) + One(left[k].second.location == nodes[i].location)
    {
      FileSlotsLess(left, k, nodes[i].location);
    }
  }

  lemma PartlyAll(nodes: seq<ChunkServer>, now: seq<ChunkServer>, chunks: Chunks)
    requires Partly(nodes, now, chunks, map[])
    ensures now == Lowered(nodes, chunks)
  {
    forall w ensures FileSlots(map[], w) == {} {}
    forall i | 0 <= i < |nodes| ensures now[i] == Lowered(nodes, chunks)[i] {
      assert FileSlots(map[], nodes[i].location) == {};
    }
  }

  /** The loop that rebuilds a file's chunk map, in whatever order the map yields its keys. */
  method CopyChunks(chunks: Chunks) returns (slice: Chunks)
    ensures slice == chunks
  {
    slice := map[];
    var left := chunks.Keys;
    while left != {}
      invariant left <= chunks.Keys && slice.Keys == chunks.Keys - left
      invariant forall k :: k in slice ==> slice[k] == chunks[k]
      decreases |left|
    {
      var k :| k in left;
      slice := slice[k := chunks[k]];
      left := left - {k};
    }
  }

  function LiveNames(nodes: seq<ChunkServer>): seq<string> {
    if nodes == [] then []
    else LiveNames(nodes[..|nodes| - 1]) + if nodes[|nodes| - 1].alive then [nodes[|nodes| - 1].location] else []
  }

  lemma {:induction false} LiveNamesExactly(nodes: seq<ChunkServer>, location: string)
    ensures location in LiveNames(nodes) <==> Alive(nodes, location)
  {
    if nodes != [] {
      var n := |nodes| - 1;
      LiveNamesExactly(nodes[..n], location);
      if i :| 0 <= i < |nodes| && nodes[i].location == location && nodes[i].alive {
        assert i < n ==> nodes[..n][i] == nodes[i];
      }
      if i :| 0 <= i < n && nodes[..n][i].location == location && nodes[..n][i].alive {
        assert nodes[i].alive;
      }
    }
  }

  class Master {
    var files: Files
    var nodes: seq<ChunkServer>
    var isLeader: bool

    ghost function View(): Meta
      reads this
    {
      Meta(files, nodes)
    }

    constructor (locations: seq<string>, leader: bool)
      ensures files == map[] && isLeader == leader && |nodes| == |locations|
      ensures forall i :: 0 <= i < |locations| ==> nodes[i] == ChunkServer(locations[i], true, 0)
    {
      files, isLeader := map[], leader;
      nodes := seq(|locations|, i requires 0 <= i < |locations| => ChunkServer(locations[i], true, 0));
    }

    /** The loop over the server list after a placement (d = 1) or for a deleted chunk (d = -1). */
    method Bump(a: string, b: string, d: int)
      modifies this`nodes
      ensures nodes == Bumped(old(nodes), a, b, d)
    {
      ghost var before := nodes;
      for i := 0 to |nodes|
        invariant |nodes| == |before|
        invariant forall k :: 0 <= k < i ==> nodes[k] == Counted(before[k], a, b, d)
        invariant forall k :: i <= k < |nodes| ==> nodes[k] == before[k]
      {
        var meta := nodes[i];
        if meta.location == a {
          meta := meta.(chunkNum := meta.chunkNum + d);
          nodes := nodes[i := meta];
        }
        if meta.location == b {
          meta := meta.(chunkNum := meta.chunkNum + d);
          nodes := nodes[i := meta];
        }
      }
    }

    method NewFileChunkFunc(file: string, a: string, b: string)
      modifies this`files, this`nodes
      ensures View() == NewFile(old(View()), file, a, b)
    {
      Bump(a, b, 1);
      files := files[file := map[0 := FreshPair(file, 0, a, b)]];
    }

    method AddChunkFunc(file: string, index: nat, a: string, b: string)
      requires file in files
      modifies this`files, this`nodes
      ensures View() == AddChunk(old(View()), file, index, a, b)
    {
      Bump(a, b, 1);
      var chunks: Chunks := files[file];
      chunks := chunks[index := FreshPair(file, index, a, b)];
      files := files[file := chunks];
    }

    /** Counts the file's chunks down in whatever order the map yields them. */
    method DeleteFileAndChunksFunc(file: string)
      modifies this`files, this`nodes
      ensures View() == Deleted(old(View()), file)
    {
      hide Bumped, FileSlots, Partly, Lowered;
      if file in files {
        ghost var before := nodes;
        var left := files[file];
        ghost var chunks := left;
        PartlyNone(nodes, chunks);
        while left != map[]
          invariant files == old(files) && Partly(before, nodes, chunks, left)
          decreases |left|
        {
          var k :| k in left;
          PartlyLess(before, nodes, chunks, left, k);
          Bump(left[k].first.location, left[k].second.location, -1);
          Shrinks(left, k);
          left := left - {k};
        }
        PartlyAll(before, nodes, chunks);
      }
      files := files - {file};
    }

    /** Records the version a server reports for its replica, rebuilding the file's chunk map. */
    method UpdateChunkVersionFunc(server: string, id: string, version: nat) returns (ok: bool)
      modifies this`files
      ensures ok <==> LastDash(id) >= 0
      ensures !ok ==> View() == old(View())
      ensures ok ==> var dash := LastDash(id);
        && View() == Versioned(old(View()), id[..dash], Atoi(id[dash + 1..]), server, version)
        && Records(old(files), files, id[..dash], Atoi(id[dash + 1..]), server, version)
    {
      var dash := LastDash(id);
      if dash < 0 {
        return false;
      }
      var index, file := Atoi(id[dash + 1..]), id[..dash];
      VersionedRecords(View(), file, index, server, version);
      var pair := Lookup(files, file, index);
      var updated := Touched(pair, server, version);
      var chunks: Chunks := if file in files then files[file] else map[];
      var slice: Chunks := CopyChunks(chunks);
      slice := slice[index := updated];
      files := files[file := slice];
      return true;
    }

    /** A heartbeat: the server is alive, and joins the list if it is new. A follower does not listen. */
    method AcceptHeartbeat(location: string) returns (heard: bool)
      modifies this`nodes
      ensures heard == isLeader
      ensures nodes == if isLeader then Heard(old(nodes), location) else old(nodes)
    {
      if !isLeader {
        return false;
      }
      ghost var before := nodes;
      var isNew := true;
      for i := 0 to |nodes|
        invariant |nodes| == |before|
        invariant isNew <==> forall k :: 0 <= k < i ==> before[k].location != location
        invariant forall k :: 0 <= k < i ==> nodes[k] == if before[k].location == location then before[k].(alive := true) else before[k]
        invariant forall k :: i <= k < |nodes| ==> nodes[k] == before[k]
      {
        if nodes[i].location == location {
          nodes := nodes[i := nodes[i].(alive := true)];
          isNew := false;
        }
      }
      if isNew {
        assert nodes == before;
        nodes := nodes + [ChunkServer(location, true, 0)];
      } else {
        assert nodes == Marked(before, location, true);
      }
      return true;
    }

    /** A server's timer ran out. */
    method MarkDead(location: string)
      modifies this`nodes
      ensures nodes == Marked(old(nodes), location, false)
    {
      ghost var before := nodes;
      for i := 0 to |nodes|
        invariant |nodes| == |before|
        invariant forall k :: 0 <= k < i ==> nodes[k] == if before[k].location == location then before[k].(alive := false) else before[k]
        invariant forall k :: i <= k < |nodes| ==> nodes[k] == before[k]
      {
        if nodes[i].location == location {
          nodes := nodes[i := nodes[i].(alive := false)];
        }
      }
    }

    method MarkAll(names: seq<string>, ghost start: seq<ChunkServer>, ghost lost: seq<string>)
      requires nodes == Silenced(start, lost)
      modifies this`nodes
      ensures nodes == Silenced(start, lost + names)
    {
      hide Marked;
      assert lost + names[..0] == lost;
      for i := 0 to |names|
        invariant nodes == Silenced(start, lost + names[..i])
      {
        SilencedNext(start, lost + names[..i], names[i]);
        assert lost + names[..i + 1] == (lost + names[..i]) + [names[i]];
        MarkDead(names[i]);
      }
      assert names[..|names|] == names;
    }

    /** Chooses again until both chosen servers answer, or fewer than two are alive, or the attempts observed are
        used up; `lost` are the servers marked dead meanwhile. */
    method PickAnswering(rounds: seq<Round>) returns (choice: Choice, ghost lost: seq<string>)
      requires DistinctNodes(nodes)
      modifies this`nodes
      ensures nodes == Silenced(old(nodes), lost) && DistinctNodes(nodes)
      ensures choice.Both? ==> Chosen(nodes, choice.first, choice.second) && exists i :: 0 <= i < |rounds| && Answers(rounds[i])
      ensures choice.TooFew? ==> forall i, j :: 0 <= i < |nodes| && 0 <= j < |nodes| && nodes[i].alive && nodes[j].alive ==> i == j
      ensures choice.NoAnswer? ==> forall i :: 0 <= i < |rounds| ==> !Answers(rounds[i])
    {
      hide Chosen, Marked;
      ghost var start := nodes;
      lost := [];
      for i := 0 to |rounds|
        invariant nodes == Silenced(start, lost)
        invariant forall j :: 0 <= j < i ==> !Answers(rounds[j])
      {
        MarkAll(rounds[i].lost, start, lost);
        lost := lost + rounds[i].lost;
        SilencedDistinct(start, lost);
        var two := PickTwo(nodes);
        if two.None? {
          return TooFew, lost;
        }
        if rounds[i].first && rounds[i].second {
          return Both(two.value.0, two.value.1), lost;
        }
      }
      SilencedDistinct(start, lost);
      choice := NoAnswer;
    }

    // ----- reading -----

    /** The loop that finds the two servers in the list. */
    method FindPlaces(a: string, b: string) returns (i1: nat, i2: nat)
      ensures i1 == PlaceOf(nodes, a) && i2 == PlaceOf(nodes, b)
    {
      i1, i2 := 0, 0;
      for i := 0 to |nodes|
        invariant i1 == PlaceOf(nodes[..i], a) && i2 == PlaceOf(nodes[..i], b)
      {
        assert nodes[..i + 1][..i] == nodes[..i];
        if a == nodes[i].location {
          i1 := i;
        }
        if b == nodes[i].location {
          i2 := i;
        }
      }
      assert nodes[..|nodes|] == nodes;
    }

    /** The names of the servers that are alive, in the order of the list. */
    method LiveServers() returns (live: seq<string>)
      ensures live == LiveNames(nodes)
    {
      live := [];
      for i := 0 to |nodes|
        invariant live == LiveNames(nodes[..i])
      {
        assert nodes[..i + 1][..i] == nodes[..i];
        if nodes[i].alive {
          live := live + [nodes[i].location];
        }
      }
      assert nodes[..|nodes|] == nodes;
    }

    /** Tells a reader which replica of a chunk to ask. */
    method GetChunkLocation(file: string, index: nat) returns (r: Found)
      ensures r == Missing(-4) <==> !isLeader
      ensures r == Missing(-2) <==> isLeader && file !in files
      ensures r == Missing(-3) <==> isLeader && file in files && index !in files[file]
      ensures !r.Missing? <==> isLeader && Has(files, file, index)
      ensures r == NoList <==> isLeader && Has(files, file, index) && nodes == []
      ensures r == NoServer <==> isLeader && Has(files, file, index) && nodes != [] && var pair := files[file][index];
        !Up(nodes, pair.first.location) && !Up(nodes, pair.second.location)
      ensures r.Found? ==> var pair := files[file][index];
        exists x :: Freshest(nodes, pair, x) && x.id == r.id && x.location == r.location
      ensures r.Found? ==> r.live == LiveNames(nodes)
    {
      if !isLeader {
        return Missing(-4);
      }
      if file !in files {
        return Missing(-2);
      }
      if index !in files[file] {
        return Missing(-3);
      }
      var chunk1, chunk2 := files[file][index].first, files[file][index].second;
      var i1, i2 := FindPlaces(chunk1.location, chunk2.location);
      if nodes == [] {
        return NoList;
      }
      var chunk;
      if !nodes[i1].alive && !nodes[i2].alive {
        return NoServer;
      } else if chunk1.version >= chunk2.version {
        chunk := if nodes[i1].alive then chunk1 else chunk2;
      } else {
        chunk := if nodes[i2].alive then chunk2 else chunk1;
      }
      assert Freshest(nodes, files[file][index], chunk);
      var live := LiveServers();
      return Found(chunk.id, chunk.location, live);
    }

    // ----- the leader's handlers -----

    method NewFileChunk(file: string, rounds: seq<Round>) returns (r: Reply, ghost op: Op, ghost lost: seq<string>)
      requires DistinctNodes(nodes)
      modifies this`files, this`nodes
      ensures r == Errornum(-4) <==> !old(isLeader)
      ensures r == Errornum(-1) <==> old(isLeader) && file in old(files)
      ensures r.Errornum? ==> View() == old(View())
      ensures r.Placed? || r.Errornum? || r == Crashed || r == Trying
      ensures r == Crashed || r == Trying ==> files == old(files) && nodes == Silenced(old(nodes), lost)
      ensures r == Trying ==> forall i :: 0 <= i < |rounds| ==> !Answers(rounds[i])
      ensures r.Placed? ==> op.Create? && op.file == file && r == Placed(ChunkId(file, 0), op.a)
      ensures r.Placed? ==> Answered(r, files, file, 0, op.a, op.b)
      ensures r.Placed? ==> var m := Meta(old(files), Silenced(old(nodes), lost));
        Allowed(m, op) && View() == LeaderNext(m, op)
      ensures isLeader == old(isLeader)
    {
      hide Chosen, Silenced;
      op, lost := Delete(file), [];
      if !isLeader {
        return Errornum(-4), op, lost;
      }
      if file in files {
        return Errornum(-1), op, lost;
      }
      var choice;
      choice, lost := PickAnswering(rounds);
      if choice.NoAnswer? {
        return Trying, op, lost;
      }
      if choice.TooFew? {
        return Crashed, op, lost;
      }
      op := Create(file, choice.first, choice.second);
      NewFileChunkFunc(file, choice.first, choice.second);
      r := Placed(ChunkId(file, 0), choice.first);
    }

    method AddFileChunk(file: string, index: nat, rounds: seq<Round>) returns (r: Reply, ghost op: Op, ghost lost: seq<string>)
      requires DistinctNodes(nodes)
      modifies this`files, this`nodes
      ensures r == Errornum(-4) <==> !old(isLeader)
      ensures r == Errornum(-2) <==> old(isLeader) && file !in old(files)
      ensures r.Errornum? ==> View() == old(View())
      ensures r.Placed? || r.Errornum? || r == Crashed || r == Trying
      ensures r == Crashed || r == Trying ==> files == old(files) && nodes == Silenced(old(nodes), lost)
      ensures r == Trying ==> forall i :: 0 <= i < |rounds| ==> !Answers(rounds[i])
      ensures r.Placed? ==> op.Add? && op.file == file && op.index == index && r == Placed(ChunkId(file, index), op.a)
      ensures r.Placed? ==> Answered(r, files, file, index, op.a, op.b)
      ensures r.Placed? ==> var m := Meta(old(files), Silenced(old(nodes), lost));
        Chosen(m.nodes, op.a, op.b) && View() == LeaderNext(m, op)
      ensures isLeader == old(isLeader)
    {
      hide Chosen, Silenced;
      op, lost := Delete(file), [];
      if !isLeader {
        return Errornum(-4), op, lost;
      }
      if file !in files {
        return Errornum(-2), op, lost;
      }
      var choice;
      choice, lost := PickAnswering(rounds);
      if choice.NoAnswer? {
        return Trying, op, lost;
      }
      if choice.TooFew? {
        return Crashed, op, lost;
      }
      op := Add(file, index, choice.first, choice.second);
      AddChunkFunc(file, index, choice.first, choice.second);
      r := Placed(ChunkId(file, index), choice.first);
    }

    // ----- the follower's handlers -----

    method NewFileChunkReplica(file: string, a: string, b: string) returns (r: Reply)
      modifies this`files, this`nodes
      ensures old(isLeader) ==> r == Errornum(-4) && View() == old(View())
      ensures !old(isLeader) ==> View() == FollowerNext(old(View()), Create(file, a, b))
      ensures !old(isLeader) ==> r == if file in old(files) then Errornum(-1) else Placed(ChunkId(file, 0), a)
      ensures r.Placed? ==> Answered(r, files, file, 0, a, b)
      ensures isLeader == old(isLeader)
    {
      if isLeader {
        return Errornum(-4);
      }
      if file in files {
        return Errornum(-1);
      }
      NewFileChunkFunc(file, a, b);
      r := Placed(ChunkId(file, 0), a);
    }

    method AddChunkReplica(file: string, index: nat, a: string, b: string) returns (r: Reply)
      modifies this`files, this`nodes
      ensures old(isLeader) ==> r == Errornum(-4) && View() == old(View())
      ensures !old(isLeader) ==> View() == FollowerNext(old(View()), Add(file, index, a, b))
      ensures !old(isLeader) ==> r == if file in old(files) then Placed(ChunkId(file, index), a) else Errornum(-2)
      ensures r.Placed? ==> Answered(r, files, file, index, a, b)
      ensures isLeader == old(isLeader)
    {
      if isLeader {
        return Errornum(-4);
      }
      if file !in files {
        return Errornum(-2);
      }
      AddChunkFunc(file, index, a, b);
      r := Placed(ChunkId(file, index), a);
    }

    method DeleteFileAndChunksReplica(file: string) returns (r: Reply)
      modifies this`files, this`nodes
      ensures old(isLeader) ==> r == Errornum(-4) && View() == old(View())
      ensures !old(isLeader) ==> r == Errornum(0) && View() == FollowerNext(old(View()), Delete(file))
      ensures isLeader == old(isLeader)
    {
      if isLeader {
        return Errornum(-4);
      }
      DeleteFileAndChunksFunc(file);
      r := Errornum(0);
    }

    /** The report names the chunk; a name without a dash crashes the handler. */
    method UpdateChunkVersionReplica(server: string, id: string, version: nat) returns (r: Reply)
      modifies this`files
      ensures old(isLeader) ==> r == Errornum(-4) && View() == old(View())
      ensures !old(isLeader) && LastDash(id) < 0 ==> r == Crashed && View() == old(View())
      ensures !old(isLeader) && LastDash(id) >= 0 ==> var dash := LastDash(id);
        && r == Updated && View() == FollowerNext(old(View()), SetVersion(id[..dash], Atoi(id[dash + 1..]), server, version))
        && Records(old(files), files, id[..dash], Atoi(id[dash + 1..]), server, version)
      ensures isLeader == old(isLeader)
    {
      hide Versioned, Records, LastDash, Atoi, NewFile, AddChunk, Deleted, Heard, Marked;
      if isLeader {
        return Errornum(-4);
      }
      var ok := UpdateChunkVersionFunc(server, id, version);
      r := if ok then Updated else Crashed;
    }
  }

  lemma PartlyNone(nodes: seq<ChunkServer>, chunks: Chunks)
    ensures Partly(nodes, nodes, chunks, chunks)
  {}

  lemma Shrinks(left: Chunks, k: nat)
    requires k in left
    ensures |left - {k}| < |left|
  {
    assert left.Keys == (left - {k}).Keys + {k};
  }
}
