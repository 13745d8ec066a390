/**
 A rotating file held in memory: two buffers that take turns, and sessions that publish
 observations of them. An observation's identity and version determine its contents.
 */
module SampleFile {
  import opened Wrappers
  import opened Utf8

  const CAPACITY := 8192

  datatype Object = Object(size: nat, identity: nat, version: nat)

  // What names a state of a file to those who observe it.
  datatype Key = Key(identity: nat, version: nat)

  datatype Operation = Inspect | Read

  datatype Request = Request(operation: Operation, offset: nat, bytes: nat)

  datatype Observation = Observation(file: Object, offset: nat, data: seq<Byte>)

  function KeyOf(o: Object): (key: Key) {
    Key(o.identity, o.version)
  }

  function Prefix(bytes: seq<Byte>, n: nat): (prefix: seq<Byte>) {
    if |bytes| <= n then bytes else bytes[..n]
  }

  // What an append makes of a file: it goes on, or starts over when it would not fit.
  function Appended(contents: seq<Byte>, bytes: seq<Byte>): (after: seq<Byte>) {
    if |contents| + |bytes| <= CAPACITY then contents + bytes else Prefix(bytes, CAPACITY)
  }

  // What a read at an offset sees of some contents.
  function Slice(contents: seq<Byte>, request: Request): (data: seq<Byte>) {
    if request.operation == Read && request.offset < |contents|
    then Prefix(contents[request.offset..], request.bytes) else []
  }

  // An observation gives the size of some contents, and a slice of them.
  predicate ReportsOn(o: Observation, contents: seq<Byte>) {
    && o.file.size == |contents| <= CAPACITY
    && (o.data == [] || (o.offset + |o.data| <= |contents| && o.data == contents[o.offset..o.offset + |o.data|]))
  }

  lemma SliceOfPrefix(all: seq<Byte>, size: nat, request: Request)
    requires request.offset < size <= |all| && request.operation == Read
    ensures var count := if request.bytes <= size - request.offset then request.bytes else size - request.offset;
            Slice(all[..size], request) == all[request.offset..request.offset + count]
  {
  }

  class SampleFile {
    const buffers: seq<array<Byte>>
    var objects: seq<Object>
    var current: nat
    var nextIdentity: nat
    var result: Observation
    var active: bool
    var changed: bool
    var ready: bool
    // The contents every key has stood for, the buffers that have been current, and the
    // observations published.
    ghost var history: map<Key, seq<Byte>>
    ghost var visited: set<nat>
    ghost var published: seq<Observation>

    ghost predicate Shaped()
      reads this
    {
      && |buffers| == |objects| == 2 && buffers[0] != buffers[1] && current < 2
      && (forall k :: 0 <= k < 2 ==> buffers[k].Length == CAPACITY && objects[k].size <= CAPACITY)
    }

    // The contents of one of the two files.
    function Contents(k: nat): (contents: seq<Byte>)
      requires Shaped() && k < 2
      reads this, buffers
    {
      buffers[k][..objects[k].size]
    }

    // The keys so far are those of the past: none is ahead of the files that bear them.
    ghost predicate KeysAreOld()
      reads this
      requires Shaped()
    {
      && (forall key :: key in history ==> key.identity < nextIdentity)
      && (forall key, k :: key in history && k in visited && k < 2 && key.identity == objects[k].identity ==>
            key.version <= objects[k].version)
      && (0 in visited && 1 in visited ==> objects[0].identity != objects[1].identity)
    }

    ghost predicate Recorded(k: nat)
      reads this, buffers
      requires Shaped() && k < 2
    {
      KeyOf(objects[k]) in history && history[KeyOf(objects[k])] == Contents(k)
    }

    // An observation reports the contents its key stands for.
    static ghost predicate Genuine(o: Observation, history: map<Key, seq<Byte>>) {
      KeyOf(o.file) in history && ReportsOn(o, history[KeyOf(o.file)])
    }

    ghost predicate Valid()
      reads this, buffers
    {
      && Shaped() && 0 in visited && current in visited
      && KeysAreOld()
      && (forall k :: k in visited ==> k < 2 && Recorded(k))
      && (forall i :: 0 <= i < |published| ==> Genuine(published[i], history))
    }

    constructor ()
      ensures Valid() && Contents(current) == [] && !active && published == [] && fresh(buffers)
    {
      var a, b := new Byte[CAPACITY], new Byte[CAPACITY];
      buffers, objects := [a, b], [Object(0, 1, 1), Object(0, 1, 1)];
      current, nextIdentity, result := 0, 2, Observation(Object(0, 0, 0), 0, []);
      active, changed, ready := false, false, false;
      history, visited, published := map[Key(1, 1) := []], {0}, [];
    }

    // The current file has moved to a key that is ahead of all keys so far.
    ghost predicate Ahead()
      reads this, buffers
    {
      && Shaped() && 0 in visited && objects[current].identity < nextIdentity
      && (forall key :: key in history ==> key.identity < nextIdentity)
      && (forall key :: key in history && key.identity == objects[current].identity ==>
            key.version < objects[current].version)
      && (1 - current in visited ==>
            && Recorded(1 - current) && objects[1 - current].identity != objects[current].identity
            && (forall key :: key in history && key.identity == objects[1 - current].identity ==>
                  key.version <= objects[1 - current].version))
      && (forall k :: k in visited ==> k < 2)
      && (forall i :: 0 <= i < |published| ==> Genuine(published[i], history))
    }

    // Its key is new, so recording what it stands for leaves all others as they were.
    ghost method Record()
      requires Ahead()
      modifies `history, `visited
      ensures Valid() && visited == old(visited) + {current}
    {
      history := history[KeyOf(objects[current]) := Contents(current)];
      assert forall i :: 0 <= i < |published| ==> Genuine(published[i], history);
      visited := visited + {current};
      assert KeysAreOld();
    }

    method Truncate()
      requires Valid()
      modifies this
      ensures Valid() && changed && current == old(current) && Contents(current) == []
      ensures published == old(published) && visited == old(visited)
      ensures Contents(1 - current) == old(Contents(1 - current))
      ensures objects[1 - current] == old(objects)[1 - current] && nextIdentity == old(nextIdentity)
      ensures KeyOf(objects[current]) == Key(old(objects)[current].identity, old(objects)[current].version + 1)
      ensures KeyOf(objects[current]) !in old(history)
    {
      var file := objects[current];
      objects := objects[current := file.(size := 0, version := file.version + 1)];
      changed := true;
      Record();
    }

    method Rotate()
      requires Valid()
      modifies this
      ensures Valid() && changed && current == 1 - old(current) && Contents(current) == []
      ensures published == old(published) && old(visited) <= visited
      ensures Contents(1 - current) == old(Contents(current)) && objects[1 - current] == old(objects[current])
      ensures objects[current].identity == old(nextIdentity) && nextIdentity == old(nextIdentity) + 1
      ensures KeyOf(objects[current]) !in old(history)
    {
      current := 1 - current;
      var file := objects[current];
      objects := objects[current := Object(0, nextIdentity, file.version + 1)];
      nextIdentity := nextIdentity + 1;
      changed := true;
      Record();
    }

    method Append(bytes: seq<Byte>)
      requires Valid()
      modifies this, buffers
      ensures Valid() && changed && current == old(current)
      ensures Contents(current) == Appended(old(Contents(current)), bytes)
      ensures |old(Contents(current))| + |bytes| <= 8192 ==> Contents(current) == old(Contents(current)) + bytes
      ensures |old(Contents(current))| + |bytes| > 8192 ==>
                Contents(current) <= bytes && (|Contents(current)| == 8192 || Contents(current) == bytes)
      ensures published == old(published) && visited == old(visited)
      ensures Contents(1 - current) == old(Contents(1 - current))
    {
      if |bytes| > CAPACITY - objects[current].size {
        StartOver(bytes);
      } else {
        Extend(bytes);
      }
    }

    // An append that does not fit: the file is truncated, and takes what fits then.
    method StartOver(bytes: seq<Byte>)
      requires Valid()
      modifies this, buffers
      ensures Valid() && changed && current == old(current) && Contents(current) == Prefix(bytes, CAPACITY)
      ensures published == old(published) && visited == old(visited)
      ensures Contents(1 - current) == old(Contents(1 - current))
    {
      Truncate();
      Extend(Prefix(bytes, CAPACITY));
    }

    // Writes bytes that fit behind the contents.
    method Extend(bytes: seq<Byte>)
      requires Valid() && objects[current].size + |bytes| <= CAPACITY
      modifies this, buffers
      ensures Valid() && changed && current == old(current) && Contents(current) == old(Contents(current)) + bytes
      ensures published == old(published) && visited == old(visited)
      ensures Contents(1 - current) == old(Contents(1 - current))
    {
      var file := objects[current];
      ghost var all, other := Contents(current) + bytes, Contents(1 - current);
      Put(buffers[current], file.size, bytes);
      assert Contents(1 - current) == other;
      objects := objects[current := file.(size := file.size + |bytes|, version := file.version + 1)];
      changed := true;
      assert Contents(current) == all && Contents(1 - current) == other;
      Record();
      assert Contents(current) == all && Contents(1 - current) == other;
    }

    // Publishes what one of the files looks like, and what is read of it.
    method Publish(k: nat, request: Request)
      requires Valid() && k in visited
      modifies `result, `published, `ready
      ensures Valid() && ready && published == old(published) + [result]
      ensures result == Observation(objects[k], request.offset, Slice(Contents(k), request))
    {
      var file := objects[k];
      var data := [];
      if request.operation == Read && request.offset < file.size {
        var rest := file.size - request.offset;
        var count := if request.bytes <= rest then request.bytes else rest;
        data := buffers[k][request.offset..request.offset + count];
        SliceOfPrefix(buffers[k][..], file.size, request);
      }
      result := Observation(file, request.offset, data);
      assert Recorded(k) && Genuine(result, history);
      published := published + [result];
      ready := true;
    }

    static method Put(buffer: array<Byte>, at: nat, bytes: seq<Byte>)
      requires at + |bytes| <= buffer.Length
      modifies buffer
      ensures buffer[..at + |bytes|] == old(buffer[..at]) + bytes
    {
      for k := 0 to |bytes|
        invariant buffer[..at] == old(buffer[..at])
        invariant buffer[at..at + k] == bytes[..k]
      {
        buffer[at + k] := bytes[k];
      }
      assert buffer[..at + |bytes|] == buffer[..at] + buffer[at..at + |bytes|];
    }

    // No ABA: observations with the same identity and version report on the same contents.
    lemma SameKeySameContents(i: nat, j: nat)
      requires Valid() && i < |published| && j < |published| && KeyOf(published[i].file) == KeyOf(published[j].file)
      ensures published[i].file.size == published[j].file.size
      ensures exists contents :: ReportsOn(published[i], contents) && ReportsOn(published[j], contents)
    {
      assert Genuine(published[i], history) && Genuine(published[j], history);
    }

    // An observation that still bears the key of the current file reports on what is in it now.
    lemma UnchangedKeyUnchangedFile(i: nat)
      requires Valid() && i < |published| && KeyOf(published[i].file) == KeyOf(objects[current])
      ensures ReportsOn(published[i], Contents(current))
    {
      assert Genuine(published[i], history);
    }
  }

  // A session of one file: it keeps to the object it inspected last.
  class Session {
    const owner: SampleFile
    var slot: nat
    var retired: bool

    ghost predicate Valid()
      reads this, owner, owner.buffers
    {
      owner.Valid() && slot in owner.visited
    }

    constructor (owner: SampleFile)
      requires owner.Valid()
      ensures this.owner == owner && Valid() && !retired && slot == 0
    {
      this.owner, slot, retired := owner, 0, false;
    }

    // request: publishes what the file looks like, and what is read of it.
    method Request(request: Request)
      requires Valid()
      modifies this, owner
      ensures Valid() && retired == old(retired)
      ensures retired ==> owner.published == old(owner.published) && slot == old(slot)
      ensures !retired ==>
        && slot == (if request.operation == Inspect then owner.current else old(slot))
        && owner.ready && owner.result == Observation(
             owner.objects[slot], request.offset, Slice(owner.Contents(slot), request))
        && owner.published == old(owner.published) + [owner.result]
      ensures owner.objects == old(owner.objects) && owner.current == old(owner.current)
      ensures owner.changed == (old(owner.changed) && (retired || request.operation != Inspect))
    {
      if retired {
        return;
      }
      if request.operation == Inspect {
        slot := owner.current;
        owner.changed := false;
      }
      owner.Publish(slot, request);
    }

    method Take() returns (result: Option<Observation>)
      requires Valid()
      modifies owner`ready
      ensures Valid()
      ensures result == if retired || !old(owner.ready) then None else Some(owner.result)
      ensures result.Some? ==> !owner.ready
    {
      if retired || !owner.ready {
        return None;
      }
      owner.ready := false;
      return Some(owner.result);
    }

    method Cancel()
      requires Valid()
      modifies this, owner`active, owner`ready
      ensures Valid() && retired && slot == old(slot)
      ensures old(retired) ==> owner.active == old(owner.active) && owner.ready == old(owner.ready)
      ensures !old(retired) ==> !owner.active && !owner.ready
    {
      if !retired {
        retired, owner.active, owner.ready := true, false, false;
      }
    }
  }

  // open_session: one session at a time.
  method OpenSession(file: SampleFile) returns (session: Session?)
    requires file.Valid()
    modifies file`active
    ensures file.Valid() && (session == null <==> old(file.active)) && file.active
    ensures session != null ==> fresh(session) && session.owner == file && session.Valid() && !session.retired
  {
    if file.active {
      return null;
    }
    file.active := true;
    session := new Session(file);
  }
}
