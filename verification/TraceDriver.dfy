/** The trace as the object that media_lib_mem_trace.c keeps: a fixed array of records of
    which the first itemNum are in use, running totals, and a list of modules. */
module TraceDriver {
  import opened Bytes
  import opened TraceTable
  import opened Wrappers

  class MemTrace {
    const cfg: Config
    const items: array<Record>
    var itemNum: nat
    var memUsage: nat
    var peakUsage: nat
    var modules: seq<Module>
    var overflow: bool

    ghost predicate Valid()
      reads this
    {
      items.Length == cfg.cap && itemNum <= items.Length
    }

    function State(): Trace
      reads this, items
      requires itemNum <= items.Length
    {
      Trace(cfg, items[..itemNum], memUsage, peakUsage, modules, overflow)
    }

    constructor (cfg: Config)
      ensures Valid() && State() == Start(cfg) && fresh(items)
    {
      this.cfg := cfg;
      items := new Record[cfg.cap](_ => Record(0, 0, 0, false));
      itemNum, memUsage, peakUsage, modules, overflow := 0, 0, 0, [], false;
    }

    /** get_module. */
    method GetModule(name: string) returns (i: nat)
      ensures i == FindModule(modules, name)
    {
      i := 0;
      while i < |modules| && modules[i].name != name
        invariant i <= |modules| && FindModule(modules, name) == i + FindModule(modules[i..], name)
      {
        i := i + 1;
      }
    }

    /** add_mem_usage, with alloc_module for a name that is new. */
    method AddMemUsage(name: Option<string>, size: nat) returns (id: nat, owned: bool)
      requires Valid()
      modifies this`memUsage, this`peakUsage, this`modules
      ensures Valid() && (State(), id, owned) == AddUsage(old(State()), name, size)
    {
      memUsage := (memUsage + size) % U32_RANGE;
      if peakUsage < memUsage {
        peakUsage := memUsage;
      }
      if !cfg.byModule || name.None? {
        return 0, false;
      }
      var i := GetModule(name.value);
      if i == |modules| {
        if |modules| > 0xFF {
          return 0, false;
        }
        modules := modules + [Module(name.value, 0, 0)];
      }
      var m := modules[i];
      var usage := (m.usage + size) % U32_RANGE;
      modules := modules[i := m.(usage := usage, peak := if m.peak < usage then usage else m.peak)];
      return i, true;
    }

    /** remove_mem_usage. */
    method RemoveMemUsage(id: nat, size: nat)
      requires Valid()
      modifies this`memUsage, this`modules
      ensures Valid() && State() == RemoveUsage(old(State()), id, size)
    {
      memUsage := (memUsage - size) % U32_RANGE;
      if cfg.byModule && id < |modules| {
        modules := modules[id := modules[id].(usage := (modules[id].usage - size) % U32_RANGE)];
      }
    }

    /** get_trace_item: the position of the record, or itemNum. */
    method GetTraceItem(addr: int) returns (i: nat)
      requires Valid()
      ensures i == Find(items[..itemNum], addr)
    {
      i := 0;
      while i < itemNum && items[i].addr != addr
        invariant i <= itemNum && Find(items[..itemNum], addr) == i + Find(items[i..itemNum], addr)
      {
        assert items[i..itemNum][1..] == items[i + 1..itemNum];
        i := i + 1;
      }
    }

    /** add_trace_item; a size of 860 that finds a slot runs into a debugging trap. */
    method AddTraceItem(r: Record) returns (trapped: bool)
      requires Valid()
      modifies this`itemNum, this`overflow, items
      ensures Valid() && trapped == (HasSlot(old(State())) && r.size == TRAP_SIZE)
      ensures trapped ==> State() == old(State())
      ensures !trapped ==>
                State() == if HasSlot(old(State())) then
                             old(State()).(recs := old(State()).recs + [r], overflow := false)
                           else old(State()).(overflow := true)
    {
      if itemNum >= items.Length {
        overflow := true;
        return false;
      }
      if r.size == TRAP_SIZE {
        return true;
      }
      overflow := false;
      items[itemNum] := r;
      itemNum := itemNum + 1;
      return false;
    }

    /** remove_trace_item: the last record moves into the gap. */
    method RemoveTraceItem(i: nat)
      requires Valid() && i < itemNum
      modifies this`itemNum, items
      ensures Valid() && State() == old(State()).(recs := SwapRemove(old(State()).recs, i))
    {
      itemNum := itemNum - 1;
      items[i] := items[itemNum];
    }

    /** add_trace. */
    method Add(name: Option<string>, addr: int, size: nat) returns (trapped: bool)
      requires Valid()
      modifies this, items
      ensures Valid() && trapped == (HasSlot(old(State())) && size == TRAP_SIZE)
      ensures !trapped ==> State() == AddTrace(old(State()), name, addr, size).0
      ensures !trapped ==> overflow == if cfg.cap == 0 then old(overflow) else old(itemNum) >= cfg.cap
    {
      var id, owned := AddMemUsage(name, size);
      trapped := false;
      if items.Length != 0 {
        trapped := AddTraceItem(Record(addr, size, id, owned));
      }
    }

    /** remove_trace. */
    method Remove(addr: int)
      requires Valid()
      modifies this, items
      ensures Valid() && State() == RemoveTrace(old(State()), addr) && overflow == old(overflow)
    {
      var i := GetTraceItem(addr);
      if i < itemNum {
        RemoveMemUsage(items[i].id, items[i].size);
        RemoveTraceItem(i);
      }
    }
  }
}
