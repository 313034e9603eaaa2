/** Survey accumulation: `check_master` and `check_all_ns` update the run's
    statistics (addresses attempted, serials collected) and the master's
    address and serial. Name resolution is the map `resolve` (a name that is
    not in it fails to resolve and yields no address); probing one address
    is the function `probe` (None when no usable serial came back). */
module Survey {
  import opened Types
  import opened Report

  /** The options the command line sets once, before any query. */
  datatype Options = Options(
    useTcp: bool,            // -c
    retries: int,            // -r
    allowedDrift: int,       // -d
    noNsSet: bool,           // -n
    master: Option<string>,  // -m
    additional: seq<string>) // -a

  /** A master was given and its name is not empty. */
  predicate MasterGiven(options: Options) {
    options.master.Some? && options.master.value != []
  }

  /** `get_ip`: the addresses of a name, none when resolution fails. */
  function GetIp(resolve: map<string, seq<Address>>, name: string): seq<Address> {
    if name in resolve then resolve[name] else []
  }

  /** One address to probe, with the name it belongs to. */
  datatype Target = Target(nsname: string, nsip: Address)

  /** The targets of one name, in the order of its addresses. */
  function TargetsOf(nsname: string, ips: seq<Address>): seq<Target> {
    if ips == [] then [] else TargetsOf(nsname, ips[..|ips| - 1]) + [Target(nsname, ips[|ips| - 1])]
  }

  /** Every address of every name, in name-then-address order. */
  function Targets(resolve: map<string, seq<Address>>, names: seq<string>): seq<Target> {
    if names == [] then []
    else
      var last := names[|names| - 1];
      Targets(resolve, names[..|names| - 1]) + TargetsOf(last, GetIp(resolve, last))
  }

  /** The total number of addresses the names resolve to. */
  function AddressCount(resolve: map<string, seq<Address>>, names: seq<string>): nat {
    if names == [] then 0
    else AddressCount(resolve, names[..|names| - 1]) + |GetIp(resolve, names[|names| - 1])|
  }

  /** The serials of the probes that succeeded, in probing order. */
  function Serials(ts: seq<Target>, probe: Address -> Option<Serial>): seq<Serial> {
    if ts == [] then []
    else
      var t := ts[|ts| - 1];
      Serials(ts[..|ts| - 1], probe) + (if probe(t.nsip).Some? then [probe(t.nsip).value] else [])
  }

  /** The status lines printed for the probes that succeeded. */
  function Lines(ts: seq<Target>, probe: Address -> Option<Serial>, masterSerial: Option<Serial>,
                 masterIp: Option<Address>): seq<InfoLine>
  {
    if ts == [] then []
    else
      var t := ts[|ts| - 1];
      var line := if probe(t.nsip).Some? then PrintInfo(probe(t.nsip), masterSerial, t.nsname, t.nsip, masterIp)
                  else None;
      Lines(ts[..|ts| - 1], probe, masterSerial, masterIp) + (if line.Some? then [line.value] else [])
  }

  lemma TargetsOfLength(nsname: string, ips: seq<Address>)
    ensures |TargetsOf(nsname, ips)| == |ips|
    ensures forall j :: 0 <= j < |ips| ==> TargetsOf(nsname, ips)[j] == Target(nsname, ips[j])
  {
    if ips != [] {
      TargetsOfLength(nsname, ips[..|ips| - 1]);
    }
  }

  /** There is one target per resolved address. */
  lemma {:induction false} TargetsCount(resolve: map<string, seq<Address>>, names: seq<string>)
    ensures |Targets(resolve, names)| == AddressCount(resolve, names)
  {
    if names != [] {
      TargetsCount(resolve, names[..|names| - 1]);
      TargetsOfLength(names[|names| - 1], GetIp(resolve, names[|names| - 1]));
    }
  }

  lemma {:induction false} SerialsAppend(a: seq<Target>, b: seq<Target>, probe: Address -> Option<Serial>)
    ensures Serials(a + b, probe) == Serials(a, probe) + Serials(b, probe)
    decreases |b|
  {
    if b != [] {
      var init := b[..|b| - 1];
      assert (a + b)[..|a + b| - 1] == a + init;
      SerialsAppend(a, init, probe);
    } else {
      assert a + b == a;
    }
  }

  lemma {:induction false} LinesAppend(a: seq<Target>, b: seq<Target>, probe: Address -> Option<Serial>,
                                       masterSerial: Option<Serial>, masterIp: Option<Address>)
    ensures Lines(a + b, probe, masterSerial, masterIp) ==
              Lines(a, probe, masterSerial, masterIp) + Lines(b, probe, masterSerial, masterIp)
    decreases |b|
  {
    if b != [] {
      var init := b[..|b| - 1];
      assert (a + b)[..|a + b| - 1] == a + init;
      LinesAppend(a, init, probe, masterSerial, masterIp);
    } else {
      assert a + b == a;
    }
  }

  /** One more name adds its targets, and its address count, at the end. */
  lemma TargetsStep(resolve: map<string, seq<Address>>, names: seq<string>, i: nat)
    requires i < |names|
    ensures Targets(resolve, names[..i + 1]) ==
              Targets(resolve, names[..i]) + TargetsOf(names[i], GetIp(resolve, names[i]))
    ensures AddressCount(resolve, names[..i + 1]) ==
              AddressCount(resolve, names[..i]) + |GetIp(resolve, names[i])|
  {
    assert names[..i + 1][..i] == names[..i];
  }

  /** Collecting the serials of more targets extends the list by exactly theirs. */
  lemma SerialsExtend(done: seq<Target>, mine: seq<Target>, probe: Address -> Option<Serial>,
                      base: seq<Serial>, before: seq<Serial>, after: seq<Serial>)
    requires before == base + Serials(done, probe)
    requires after == before + Serials(mine, probe)
    ensures after == base + Serials(done + mine, probe)
  {
    SerialsAppend(done, mine, probe);
  }

  /** Probing one more address of a name adds its serial, if there is one,
      and its status line, if one is printed. */
  lemma AddressStep(nsname: string, ips: seq<Address>, j: nat, probe: Address -> Option<Serial>,
                    masterSerial: Option<Serial>, masterIp: Option<Address>)
    requires j < |ips|
    ensures Serials(TargetsOf(nsname, ips[..j + 1]), probe) ==
              Serials(TargetsOf(nsname, ips[..j]), probe) + (if probe(ips[j]).Some? then [probe(ips[j]).value] else [])
    ensures Lines(TargetsOf(nsname, ips[..j + 1]), probe, masterSerial, masterIp) ==
              Lines(TargetsOf(nsname, ips[..j]), probe, masterSerial, masterIp) +
              (var line := if probe(ips[j]).Some? then PrintInfo(probe(ips[j]), masterSerial, nsname, ips[j], masterIp)
                           else None;
               if line.Some? then [line.value] else [])
  {
    assert ips[..j + 1][..j] == ips[..j];
    var before := TargetsOf(nsname, ips[..j]);
    assert TargetsOf(nsname, ips[..j + 1]) == before + [Target(nsname, ips[j])];
    assert (before + [Target(nsname, ips[j])])[..|before|] == before;
  }

  /** At most one serial per target, and one per target exactly when every
      probe succeeded. */
  lemma {:induction false} SerialsCount(ts: seq<Target>, probe: Address -> Option<Serial>)
    ensures |Serials(ts, probe)| <= |ts|
    ensures |Serials(ts, probe)| == |ts| <==> forall i :: 0 <= i < |ts| ==> probe(ts[i].nsip).Some?
  {
    if ts != [] {
      var init := ts[..|ts| - 1];
      SerialsCount(init, probe);
      assert forall i :: 0 <= i < |init| ==> init[i] == ts[i];
    }
  }

  /** Every collected serial is what some target's probe returned. */
  lemma {:induction false} SerialsFromProbes(ts: seq<Target>, probe: Address -> Option<Serial>, k: nat)
    requires k < |Serials(ts, probe)|
    ensures exists i :: 0 <= i < |ts| && probe(ts[i].nsip) == Some(Serials(ts, probe)[k])
  {
    var init := ts[..|ts| - 1];
    if k < |Serials(init, probe)| {
      SerialsFromProbes(init, probe, k);
      var i :| 0 <= i < |init| && probe(init[i].nsip) == Some(Serials(init, probe)[k]);
      assert ts[i] == init[i];
    } else {
      assert probe(ts[|ts| - 1].nsip) == Some(Serials(ts, probe)[k]);
    }
  }

  /** While a master serial is known, or no master is configured, every
      serial collected gets exactly one status line, in the same order and
      showing that serial. */
  lemma {:induction false} LinesMatchSerials(ts: seq<Target>, probe: Address -> Option<Serial>,
                                             masterSerial: Option<Serial>, masterIp: Option<Address>)
    requires masterIp.Some? ==> masterSerial.Some?
    ensures |Lines(ts, probe, masterSerial, masterIp)| == |Serials(ts, probe)|
    ensures forall k :: 0 <= k < |Serials(ts, probe)| ==>
              Lines(ts, probe, masterSerial, masterIp)[k].serial == Serials(ts, probe)[k]
  {
    if ts != [] {
      LinesMatchSerials(ts[..|ts| - 1], probe, masterSerial, masterIp);
    }
  }

  /** Run-time preferences: the options, and the master address and serial
      that `check_master` assigns. */
  class Prefs {
    const options: Options
    var masterIp: Option<Address>
    var masterSerial: Option<Serial>

    constructor (options: Options)
      ensures this.options == options && masterIp == None && masterSerial == None
    {
      this.options := options;
      masterIp := None;
      masterSerial := None;
    }

    /** `if Prefs.MASTER:` */
    predicate HasMaster() {
      MasterGiven(options)
    }
  }

  /** Run-time statistics. */
  class Stats {
    var serialList: seq<Serial>
    var countNsip: int

    constructor ()
      ensures serialList == [] && countNsip == 0
    {
      serialList := [];
      countNsip := 0;
    }

    /** Addresses attempted for which no serial was collected. */
    function Shortfall(): int
      reads this
    {
      countNsip - |serialList|
    }

    /** Probe the master first: take its first address, count it, record
        its serial as the drift baseline and collect it. A master that does
        not resolve indexes an empty list; a master without a serial ends
        the run with exit status 3. */
    method CheckMaster(prefs: Prefs, resolve: map<string, seq<Address>>, probe: Address -> Option<Serial>)
      returns (stop: Option<Stop>, lines: seq<InfoLine>)
      modifies this, prefs
      ensures !prefs.HasMaster() ==> unchanged(this, prefs) && stop == None && lines == []
      ensures prefs.HasMaster() && GetIp(resolve, prefs.options.master.value) == [] ==>
                unchanged(this, prefs) && stop == Some(IndexError) && lines == []
      ensures prefs.HasMaster() && GetIp(resolve, prefs.options.master.value) != [] ==>
                var ip := GetIp(resolve, prefs.options.master.value)[0];
                && prefs.masterIp == Some(ip)
                && prefs.masterSerial == probe(ip)
                && countNsip == old(countNsip) + 1
                && (probe(ip) == None ==>
                      stop == Some(SysExit(3)) && serialList == old(serialList) && lines == [])
                && (probe(ip).Some? ==>
                      && stop == None
                      && serialList == old(serialList) + [probe(ip).value]
                      && lines == [InfoLine(probe(ip).value, MasterTag, prefs.options.master.value, ip)])
    {
      stop, lines := None, [];
      if prefs.HasMaster() {
        var name := prefs.options.master.value;
        var ips := GetIp(resolve, name);
        if ips == [] {
          return Some(IndexError), [];
        }
        prefs.masterIp := Some(ips[0]);
        countNsip := countNsip + 1;
        prefs.masterSerial := probe(ips[0]);
        if prefs.masterSerial == None {
          return Some(SysExit(3)), [];
        }
        serialList := serialList + [prefs.masterSerial.value];
        var line := PrintInfo(prefs.masterSerial, prefs.masterSerial, name, ips[0], prefs.masterIp);
        lines := [line.value];
      }
    }

    /** The inner loop of `check_all_ns`: probe each address of one name. */
    method CheckAddresses(prefs: Prefs, nsname: string, ips: seq<Address>, probe: Address -> Option<Serial>)
      returns (lines: seq<InfoLine>)
      modifies this
      ensures countNsip == old(countNsip) + |ips|
      ensures serialList == old(serialList) + Serials(TargetsOf(nsname, ips), probe)
      ensures lines == Lines(TargetsOf(nsname, ips), probe, prefs.masterSerial, prefs.masterIp)
    {
      lines := [];
      for j := 0 to |ips|
        invariant countNsip == old(countNsip) + j
        invariant serialList == old(serialList) + Serials(TargetsOf(nsname, ips[..j]), probe)
        invariant lines == Lines(TargetsOf(nsname, ips[..j]), probe, prefs.masterSerial, prefs.masterIp)
      {
        AddressStep(nsname, ips, j, probe, prefs.masterSerial, prefs.masterIp);
        countNsip := countNsip + 1;
        var serial := probe(ips[j]);
        if serial.Some? {
          serialList := serialList + [serial.value];
          var line := PrintInfo(serial, prefs.masterSerial, nsname, ips[j], prefs.masterIp);
          if line.Some? {
            lines := lines + [line.value];
          }
        }
      }
      assert ips[..|ips|] == ips;
    }

    /** Probe every address of every name in turn: count each address,
        collect each serial obtained and print its status line. */
    method CheckAllNs(prefs: Prefs, names: seq<string>, resolve: map<string, seq<Address>>,
                      probe: Address -> Option<Serial>)
      returns (lines: seq<InfoLine>)
      modifies this
      ensures countNsip == old(countNsip) + AddressCount(resolve, names)
      ensures serialList == old(serialList) + Serials(Targets(resolve, names), probe)
      ensures lines == Lines(Targets(resolve, names), probe, prefs.masterSerial, prefs.masterIp)
      ensures Shortfall() >= old(Shortfall())
      ensures Shortfall() == old(Shortfall()) <==>
                forall i :: 0 <= i < |Targets(resolve, names)| ==> probe(Targets(resolve, names)[i].nsip).Some?
    {
      lines := [];
      for i := 0 to |names|
        invariant countNsip == old(countNsip) + AddressCount(resolve, names[..i])
        invariant serialList == old(serialList) + Serials(Targets(resolve, names[..i]), probe)
        invariant lines == Lines(Targets(resolve, names[..i]), probe, prefs.masterSerial, prefs.masterIp)
      {
        var nsname := names[i];
        var ips := GetIp(resolve, nsname);
        ghost var done, before := Targets(resolve, names[..i]), serialList;
        TargetsStep(resolve, names, i);
        var more := CheckAddresses(prefs, nsname, ips, probe);
        SerialsExtend(done, TargetsOf(nsname, ips), probe, old(serialList), before, serialList);
        LinesAppend(done, TargetsOf(nsname, ips), probe, prefs.masterSerial, prefs.masterIp);
        lines := lines + more;
      }
      assert names[..|names|] == names;
      TargetsCount(resolve, names);
      SerialsCount(Targets(resolve, names), probe);
    }
  }
}
