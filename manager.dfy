/** The object manager of uavtalk.js: the registry of object definitions read
    from JSON files, the readiness counter that tells when all of them are in,
    the decoding of frames into object instances, and the queue of callbacks
    waiting for an object to arrive. Reading directories and files is left to the
    caller: the events the file callbacks react to are the methods below, and a
    parsed JSON definition arrives as a value. */
module Manager {
  import opened Wire
  import opened Framing
  import opened Format
  import opened Text

  /** A parsed definition file: its `name`, `object_id` and `fields`. */
  datatype Definition = Definition(name: string, objectId: int, fields: seq<FieldDef>)

  /** A decoded object: the values `unpack_obj` produced, tagged with `name` and
      `object_id`. */
  datatype Instance<V> = Instance(values: seq<V>, name: string, objectId: int)

  /** An entry of `uavobjects`: the definition, its `unpackstr` and the cached
      `instance`, absent until a frame for the object has been dispatched. */
  datatype Registered<V> = Registered(def: Definition, unpackstr: string, instance: Option<Instance<V>>)

  /** `getInstance` and `requestInstance` take a numeric id or a name. */
  datatype Key = ById(id: int) | ByName(name: string)

  /** `getInstance`'s answer: null for an unknown object, otherwise the cached
      instance, which is still undefined before the first frame. */
  datatype Lookup<V> = NoSuchObject | Cached(instance: Option<Instance<V>>)

  /** `decode`'s outcomes: null for an unknown object id, the TypeError raised when
      `unpack_obj` returns null and `objdata.name` is assigned, or the instance. */
  datatype Decoded<V> = NoDefinition | Threw | Decoded(instance: Instance<V>)

  /** A callback passed to `requestInstance`, known only by its identity. */
  type Callback = nat

  /** One invocation `callback(instance)`. */
  datatype Invocation<V> = Invocation(callback: Callback, instance: Instance<V>)

  /** The invocations of the queued callbacks, in queue order. */
  function Calls<V>(callbacks: seq<Callback>, instance: Instance<V>): (r: seq<Invocation<V>>)
    ensures |r| == |callbacks|
    ensures forall i :: 0 <= i < |r| ==> r[i] == Invocation(callbacks[i], instance)
  {
    if callbacks == [] then [] else [Invocation(callbacks[0], instance)] + Calls(callbacks[1..], instance)
  }

  /** An entry of `uavobjects` is filed under its definition's id, its `unpackstr`
      is the one built from its fields, and a cached instance carries that id and
      the definition's name. */
  ghost predicate Entry<V>(id: int, reg: Registered<V>)
  {
    && reg.def.objectId == id
    && FormatString(reg.def.fields) == Format(reg.unpackstr)
    && (reg.instance.Some? ==> reg.instance.value.objectId == id && reg.instance.value.name == reg.def.name)
  }

  class ObjectManager<V> {
    /** `unpack_obj`: decoding a payload against a format string, done by a foreign
        library; null when the payload does not fit. */
    const unpackObj: (string, seq<byte>) -> Option<seq<V>>

    var uavobjects: map<int, Registered<V>>
    var nameIndex: map<string, int>
    var requested: map<int, seq<Callback>>
    var warned: set<int>
    /** The readiness counter of the directory callback and the flag it sets. */
    var count: int
    var ready: bool

    /** How many `.json` files were scheduled, whether the directory loop is over,
        and how many file callbacks registered a definition or threw. */
    ghost var files: nat
    ghost var listed: bool
    ghost var loadedOk: nat
    ghost var loadFailed: nat

    ghost predicate Valid()
      reads this
    {
      && count == 1 + files - loadedOk - (if listed then 1 else 0)
      && loadedOk + loadFailed <= files
      && (!listed ==> loadedOk + loadFailed == 0)
      && (ready <==> listed && loadedOk == files)
      && (forall id :: id in uavobjects ==> Entry(id, uavobjects[id]))
      && requested.Keys <= uavobjects.Keys
    }

    /** The manager before the directory listing arrives. */
    constructor (unpackObj: (string, seq<byte>) -> Option<seq<V>>)
      ensures Valid() && this.unpackObj == unpackObj
      ensures uavobjects == map[] && nameIndex == map[] && requested == map[] && warned == {}
      ensures count == 1 && !ready && files == 0 && !listed
    {
      this.unpackObj := unpackObj;
      uavobjects := map[];
      nameIndex := map[];
      requested := map[];
      warned := {};
      count := 1;
      ready := false;
      files := 0;
      listed := false;
      loadedOk := 0;
      loadFailed := 0;
    }

    /** `checkdone`: one less outstanding event; ready once none is left. */
    method CheckDone()
      modifies this
      ensures count == old(count) - 1 && ready == (old(ready) || count == 0)
      ensures uavobjects == old(uavobjects) && nameIndex == old(nameIndex)
      ensures requested == old(requested) && warned == old(warned)
      ensures files == old(files) && listed == old(listed) && loadedOk == old(loadedOk) && loadFailed == old(loadFailed)
    {
      count := count - 1;
      if count == 0 {
        ready := true;
      }
    }

    /** One entry of the directory listing: a `.json` file gets a read scheduled
        and one more outstanding event; other names are skipped. */
    method ScheduleFile(filename: string) returns (isJson: bool)
      requires Valid() && !listed
      modifies this
      ensures Valid()
      ensures isJson <==> |filename| >= 5 && filename[|filename| - 5..] == ".json"
      ensures count == old(count) + (if isJson then 1 else 0) && files == old(files) + (if isJson then 1 else 0)
      ensures listed == old(listed) && loadedOk == old(loadedOk) && loadFailed == old(loadFailed) && ready == old(ready)
      ensures uavobjects == old(uavobjects) && nameIndex == old(nameIndex)
      ensures requested == old(requested) && warned == old(warned)
    {
      EndsWithIff(filename, ".json");
      isJson := EndsWith(filename, ".json");
      if isJson {
        count := count + 1;
        files := files + 1;
      }
    }

    /** The `checkdone()` after the directory loop. */
    method FinishListing()
      requires Valid() && !listed
      modifies this
      ensures Valid() && listed
      ensures count == old(count) - 1 && (ready <==> files == 0)
      ensures files == old(files) && loadedOk == old(loadedOk) && loadFailed == old(loadFailed)
      ensures uavobjects == old(uavobjects) && nameIndex == old(nameIndex)
      ensures requested == old(requested) && warned == old(warned)
    {
      CheckDone();
      listed := true;
    }

    /** A file callback with its parsed definition: build the format string; on an
        unknown field type the callback throws before registering anything or
        calling `checkdone`; otherwise register the definition under its id and
        name, with no instance yet, and call `checkdone`. */
    method LoadDefinition(def: Definition) returns (r: FormatResult)
      requires Valid() && listed && loadedOk + loadFailed < files
      modifies this
      ensures Valid()
      ensures r == FormatString(def.fields)
      ensures r.UnknownFieldType? ==>
                && uavobjects == old(uavobjects) && nameIndex == old(nameIndex)
                && count == old(count) && ready == old(ready)
                && loadFailed == old(loadFailed) + 1 && loadedOk == old(loadedOk)
      ensures r.Format? ==>
                && uavobjects == old(uavobjects)[def.objectId := Registered(def, r.s, None)]
                && nameIndex == old(nameIndex)[def.name := def.objectId]
                && count == old(count) - 1 && ready == (old(ready) || count == 0)
                && loadedOk == old(loadedOk) + 1 && loadFailed == old(loadFailed)
      ensures files == old(files) && listed == old(listed)
      ensures requested == old(requested) && warned == old(warned)
    {
      r := FormatString(def.fields);
      if r.UnknownFieldType? {
        loadFailed := loadFailed + 1;
        return;
      }
      uavobjects := uavobjects[def.objectId := Registered(def, r.s, None)];
      nameIndex := nameIndex[def.name := def.objectId];
      CheckDone();
      loadedOk := loadedOk + 1;
    }

    /** `decode(packet)`: an unknown object id gives null and is logged only the
        first time it is seen (`logged`); a known one is decoded against its
        format string. */
    method Decode(frame: Frame) returns (r: Decoded<V>, logged: bool)
      requires Valid()
      modifies this
      ensures Valid()
      ensures frame.objectId !in uavobjects ==>
                r == NoDefinition && warned == old(warned) + {frame.objectId} && (logged <==> frame.objectId !in old(warned))
      ensures frame.objectId in uavobjects ==>
                && warned == old(warned) && !logged
                && var reg := uavobjects[frame.objectId];
                   var values := unpackObj(reg.unpackstr, frame.data);
                   r == if values.None? then Threw else Decoded(Instance(values.value, reg.def.name, frame.objectId))
      ensures uavobjects == old(uavobjects) && nameIndex == old(nameIndex) && requested == old(requested)
      ensures count == old(count) && ready == old(ready)
      ensures files == old(files) && listed == old(listed) && loadedOk == old(loadedOk) && loadFailed == old(loadFailed)
    {
      logged := false;
      if frame.objectId !in uavobjects {
        if frame.objectId !in warned {
          logged := true;
          warned := warned + {frame.objectId};
        }
        return NoDefinition, logged;
      }
      var obj := uavobjects[frame.objectId];
      var values := unpackObj(obj.unpackstr, frame.data);
      if values.None? {
        return Threw, logged;
      }
      r := Decoded(Instance(values.value, obj.def.name, frame.objectId));
    }

    /** The callback `input_stream` gives the deframer, run on one frame: ignored
        until ready; otherwise decoded, cached as the object's instance, handed to
        every callback queued for the object in queue order, after which the queue
        is dropped. `threw` reports the TypeError of an undecodable payload. */
    method Dispatch(frame: Frame) returns (invocations: seq<Invocation<V>>, threw: bool)
      requires Valid()
      modifies this
      ensures Valid()
      ensures threw <==> old(Throws(frame))
      ensures threw ==> forall c: byte {:trigger frame.(crc := c)} :: Throws(frame.(crc := c))
      ensures !old(ready) ==>
                && invocations == [] && !threw
                && uavobjects == old(uavobjects) && requested == old(requested) && warned == old(warned)
      ensures old(ready) && frame.objectId !in old(uavobjects) ==>
                && invocations == [] && !threw
                && uavobjects == old(uavobjects) && requested == old(requested)
                && warned == old(warned) + {frame.objectId}
      ensures old(ready) && frame.objectId in old(uavobjects) ==>
                && warned == old(warned)
                && var reg := old(uavobjects)[frame.objectId];
                   var values := unpackObj(reg.unpackstr, frame.data);
                   if values.None? then
                     && threw && invocations == []
                     && uavobjects == old(uavobjects) && requested == old(requested)
                   else
                     var instance := Instance(values.value, reg.def.name, frame.objectId);
                     && !threw
                     && uavobjects == old(uavobjects)[frame.objectId := reg.(instance := Some(instance))]
                     && requested == old(requested) - {frame.objectId}
                     && invocations == Calls(old(Queue(frame.objectId)), instance)
                     && GetInstance(ById(frame.objectId)) == Cached(Some(instance))
      ensures nameIndex == old(nameIndex) && count == old(count) && ready == old(ready)
      ensures files == old(files) && listed == old(listed) && loadedOk == old(loadedOk) && loadFailed == old(loadFailed)
    {
      invocations, threw := [], false;
      if !ready {
        return;
      }
      var decoded, _ := Decode(frame);
      if decoded.NoDefinition? {
        return;
      }
      if decoded.Threw? {
        threw := true;
        return;
      }
      var instance := decoded.instance;
      if instance.objectId !in uavobjects {
        // the `!obj` branch: decode only succeeds for a registered id
        assert false;
      }
      invocations := Deliver(instance);
    }

    /** Whether the callback `input_stream` gives the deframer throws on the frame:
        the manager is ready, the object is registered and `unpack_obj` refuses the
        data, so that `objdata.name = obj.name` raises a TypeError. The frame type and
        the checksum byte play no part. */
    predicate Throws(frame: Frame)
      reads this
    {
      ready && frame.objectId in uavobjects && unpackObj(uavobjects[frame.objectId].unpackstr, frame.data).None?
    }

    /** A decoded instance of a registered object: cache it, call back everyone
        waiting for it in queue order, then drop the queue. */
    method Deliver(instance: Instance<V>) returns (invocations: seq<Invocation<V>>)
      requires Valid() && instance.objectId in uavobjects
      requires instance.name == uavobjects[instance.objectId].def.name
      modifies this
      ensures Valid()
      ensures uavobjects == old(uavobjects)[instance.objectId := old(uavobjects)[instance.objectId].(instance := Some(instance))]
      ensures requested == old(requested) - {instance.objectId}
      ensures invocations == Calls(old(Queue(instance.objectId)), instance)
      ensures nameIndex == old(nameIndex) && warned == old(warned) && count == old(count) && ready == old(ready)
      ensures files == old(files) && listed == old(listed) && loadedOk == old(loadedOk) && loadFailed == old(loadFailed)
    {
      var id := instance.objectId;
      var obj := uavobjects[id];
      uavobjects := uavobjects[id := obj.(instance := Some(instance))];
      if id in requested {
        invocations := Invoke(requested[id], instance);
        requested := requested - {id};
      } else {
        invocations := [];
        assert requested - {id} == requested;
      }
    }

    /** The callbacks waiting for object `id`, oldest first. */
    function Queue(id: int): seq<Callback>
      reads this
    {
      if id in requested then requested[id] else []
    }

    /** The id a key names: a name goes through the name index first; an unknown
        name gives undefined, which names no object. */
    function Resolve(key: Key): Option<int>
      reads this
    {
      match key
      case ById(id) => Some(id)
      case ByName(name) => if name in nameIndex then Some(nameIndex[name]) else None
    }

    predicate Knows(key: Key)
      reads this
    {
      Resolve(key).Some? && Resolve(key).value in uavobjects
    }

    /** `getInstance(object_id)`. */
    function GetInstance(key: Key): (r: Lookup<V>)
      reads this
      requires Valid()
      ensures r.NoSuchObject? <==> !Knows(key)
      ensures r.Cached? && r.instance.Some? ==> r.instance.value.objectId == Resolve(key).value
    {
      if Knows(key) then Cached(uavobjects[Resolve(key).value].instance) else NoSuchObject
    }

    /** `requestInstance(object_id, callback)`: for a known object, queue the callback
        behind those already waiting; an unknown one gives null and changes nothing. */
    method RequestInstance(key: Key, callback: Callback) returns (found: bool)
      requires Valid()
      modifies this
      ensures Valid()
      ensures found <==> old(Knows(key))
      ensures found ==> var id := old(Resolve(key)).value;
                          requested == old(requested)[id := old(Queue(id)) + [callback]]
      ensures !found ==> requested == old(requested)
      ensures uavobjects == old(uavobjects) && nameIndex == old(nameIndex) && warned == old(warned)
      ensures count == old(count) && ready == old(ready)
      ensures files == old(files) && listed == old(listed) && loadedOk == old(loadedOk) && loadFailed == old(loadFailed)
    {
      var id := Resolve(key);
      if id.None? || id.value !in uavobjects {
        return false;
      }
      requested := requested[id.value := Queue(id.value) + [callback]];
      found := true;
    }
  }

  /** A client that queues `callbacks` for a known object of a ready manager and
      then receives a decodable frame for it: the callbacks queued before and the
      new ones are each invoked once, in the order they were queued, with the
      decoded instance, which `getInstance` returns from then on; nothing is left
      waiting for the object. */
  method RequestThenDispatch<V>(m: ObjectManager<V>, key: Key, callbacks: seq<Callback>, frame: Frame)
      returns (invocations: seq<Invocation<V>>)
    requires m.Valid() && m.ready && m.Knows(key) && frame.objectId == m.Resolve(key).value
    requires m.unpackObj(m.uavobjects[frame.objectId].unpackstr, frame.data).Some?
    modifies m
    ensures m.Valid()
    ensures var instance := Instance(m.unpackObj(old(m.uavobjects)[frame.objectId].unpackstr, frame.data).value,
                                     old(m.uavobjects)[frame.objectId].def.name, frame.objectId);
            && invocations == Calls(old(m.Queue(frame.objectId)) + callbacks, instance)
            && m.GetInstance(key) == Cached(Some(instance))
            && m.uavobjects == old(m.uavobjects)[frame.objectId := old(m.uavobjects)[frame.objectId].(instance := Some(instance))]
    ensures m.requested == old(m.requested) - {frame.objectId}
    ensures m.nameIndex == old(m.nameIndex) && m.warned == old(m.warned) && m.count == old(m.count) && m.ready
  {
    ghost var before := m.requested;
    RequestAll(m, key, callbacks);
    ghost var queued := m.requested;
    var threw;
    invocations, threw := m.Dispatch(frame);
    assert queued - {frame.objectId} == before - {frame.objectId};
  }

  /** `requestInstance(key, callback)` for each callback in turn. */
  method RequestAll<V>(m: ObjectManager<V>, key: Key, callbacks: seq<Callback>)
    requires m.Valid() && m.Knows(key)
    modifies m
    ensures m.Valid() && m.Knows(key) && m.Resolve(key) == old(m.Resolve(key))
    ensures m.Queue(m.Resolve(key).value) == old(m.Queue(m.Resolve(key).value)) + callbacks
    ensures var id := old(m.Resolve(key)).value;
            m.requested == if callbacks == [] then old(m.requested) else old(m.requested)[id := old(m.Queue(id)) + callbacks]
    ensures m.uavobjects == old(m.uavobjects) && m.nameIndex == old(m.nameIndex) && m.ready == old(m.ready)
    ensures m.warned == old(m.warned) && m.count == old(m.count)
  {
    ghost var id := m.Resolve(key).value;
    ghost var queued := m.Queue(id);
    var i := 0;
    while i < |callbacks|
      invariant 0 <= i <= |callbacks|
      invariant m.Valid() && m.Resolve(key) == Some(id) && id in m.uavobjects
      invariant m.uavobjects == old(m.uavobjects) && m.nameIndex == old(m.nameIndex) && m.ready == old(m.ready)
      invariant m.warned == old(m.warned) && m.count == old(m.count)
      invariant m.requested == if i == 0 then old(m.requested) else old(m.requested)[id := queued + callbacks[..i]]
    {
      assert m.Queue(id) == queued + callbacks[..i];
      ghost var before := m.requested;
      var found := m.RequestInstance(key, callbacks[i]);
      TakeOneMore(callbacks, i);
      assert queued + callbacks[..i + 1] == queued + callbacks[..i] + [callbacks[i]];
      assert m.requested == before[id := queued + callbacks[..i + 1]];
      i := i + 1;
    }
    assert callbacks[..i] == callbacks;
  }

  /** `_.each(requested[id], function(callback) { callback(instance); })`. */
  method Invoke<V>(queue: seq<Callback>, instance: Instance<V>) returns (invocations: seq<Invocation<V>>)
    ensures invocations == Calls(queue, instance)
  {
    invocations := [];
    var i := 0;
    while i < |queue|
      invariant 0 <= i <= |queue|
      invariant invocations == Calls(queue[..i], instance)
    {
      CallsSnoc(queue[..i], queue[i], instance);
      TakeOneMore(queue, i);
      invocations := invocations + [Invocation(queue[i], instance)];
      i := i + 1;
    }
    assert queue[..i] == queue;
  }

  /** A prefix grown by one element. */
  lemma TakeOneMore<T>(s: seq<T>, i: nat)
    requires i < |s|
    ensures s[..i + 1] == s[..i] + [s[i]]
  {
  }

  lemma CallsSnoc<V>(callbacks: seq<Callback>, callback: Callback, instance: Instance<V>)
    ensures Calls(callbacks + [callback], instance) == Calls(callbacks, instance) + [Invocation(callback, instance)]
  {
    var a := Calls(callbacks + [callback], instance);
    var b := Calls(callbacks, instance) + [Invocation(callback, instance)];
    assert |a| == |b|;
    forall i | 0 <= i < |a| ensures a[i] == b[i] {
      if i < |callbacks| {
        assert (callbacks + [callback])[i] == callbacks[i];
      }
    }
  }

  /** Readiness: the manager is ready exactly when the listing is over and every
      scheduled file registered its definition; once a file callback has thrown it
      can never become ready. */
  lemma Readiness<V>(m: ObjectManager<V>)
    requires m.Valid()
    ensures m.ready <==> m.listed && m.loadedOk == m.files
    ensures m.loadFailed > 0 ==> !m.ready && m.loadedOk < m.files
    ensures m.ready ==> m.count == 0
  {
  }
}
