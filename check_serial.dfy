/** The whole run: build the name list, probe the master, survey every
    nameserver address, and exit with the verdict. */
module CheckSerial {
  import opened Types
  import opened Transport
  import opened Prober
  import opened Verdict
  import opened Names
  import opened Report
  import opened Survey

  /** The network as seen from one address: the outcomes of its successive
      UDP calls and of its TCP call. */
  datatype Network = Network(udp: nat -> Attempt, tcp: Attempt)

  /** Probing an address: `get_serial` with the configured transport. */
  function Probe(options: Options, net: Address -> Network): Address -> Option<Serial> {
    a => ProbeSerial(options.useTcp, options.retries, net(a).udp, net(a).tcp)
  }

  /** The master probe succeeds, or no master is configured. */
  predicate MasterAnswers(options: Options, resolve: map<string, seq<Address>>, probe: Address -> Option<Serial>) {
    MasterGiven(options) ==>
      GetIp(resolve, options.master.value) != [] && probe(GetIp(resolve, options.master.value)[0]).Some?
  }

  /** The number of addresses attempted in a run whose master answered. */
  function Attempted(options: Options, resolve: map<string, seq<Address>>, names: seq<string>): nat {
    (if MasterGiven(options) then 1 else 0) + AddressCount(resolve, names)
  }

  /** The serials collected in a run whose master answered: the master's
      first, then those of the survey. */
  function Collected(options: Options, resolve: map<string, seq<Address>>, names: seq<string>,
                     probe: Address -> Option<Serial>): seq<Serial>
    requires MasterAnswers(options, resolve, probe)
  {
    (if MasterGiven(options) then [probe(GetIp(resolve, options.master.value)[0]).value] else []) +
    Serials(Targets(resolve, names), probe)
  }

  /** The verdict of a run whose master answered: 2 exactly when some
      surveyed address gave no serial, and IndexError exactly when there was
      nothing to probe at all. */
  lemma SurveyVerdict(options: Options, resolve: map<string, seq<Address>>, names: seq<string>,
                      probe: Address -> Option<Serial>)
    requires MasterAnswers(options, resolve, probe)
    ensures var ts := Targets(resolve, names);
            var result := GetExitCode(Attempted(options, resolve, names), Collected(options, resolve, names, probe),
                                      options.allowedDrift);
            && (result == Ok(2) <==> exists i :: 0 <= i < |ts| && probe(ts[i].nsip) == None)
            && (result.Err? <==> !MasterGiven(options) && ts == [])
  {
    var ts := Targets(resolve, names);
    TargetsCount(resolve, names);
    SerialsCount(ts, probe);
    ExitCodePolicy(Attempted(options, resolve, names), Collected(options, resolve, names, probe),
                   options.allowedDrift);
  }

  /** Lines 290-292 of the main program: probe the master, survey the
      names, and compute the exit status. */
  method RunSurvey(options: Options, names: seq<string>, resolve: map<string, seq<Address>>,
                   probe: Address -> Option<Serial>)
    returns (stop: Stop, lines: seq<InfoLine>)
    ensures !MasterAnswers(options, resolve, probe) ==>
              && lines == []
              && stop == (if GetIp(resolve, options.master.value) == [] then IndexError else SysExit(3))
    ensures MasterAnswers(options, resolve, probe) ==>
              var ts := Targets(resolve, names);
              var result := GetExitCode(Attempted(options, resolve, names), Collected(options, resolve, names, probe),
                                        options.allowedDrift);
              && stop == (if result.Ok? then SysExit(result.value) else result.error)
              && (stop == SysExit(2) <==> exists i :: 0 <= i < |ts| && probe(ts[i].nsip) == None)
              && (stop == IndexError <==> !MasterGiven(options) && ts == [])
              && |lines| == |Collected(options, resolve, names, probe)|
              && forall k :: 0 <= k < |lines| ==> lines[k].serial == Collected(options, resolve, names, probe)[k]
  {
    var prefs := new Prefs(options);
    var stats := new Stats();
    var halt, masterLines := stats.CheckMaster(prefs, resolve, probe);
    if halt.Some? {
      assert !MasterAnswers(options, resolve, probe);
      return halt.value, masterLines;
    }
    assert MasterAnswers(options, resolve, probe);
    assert stats.countNsip == if MasterGiven(options) then 1 else 0;
    assert stats.serialList == Collected(options, resolve, [], probe);
    var surveyLines := stats.CheckAllNs(prefs, names, resolve, probe);
    lines := masterLines + surveyLines;
    LinesMatchSerials(Targets(resolve, names), probe, prefs.masterSerial, prefs.masterIp);
    assert stats.countNsip == Attempted(options, resolve, names);
    assert stats.serialList == Collected(options, resolve, names, probe);
    var result := GetExitCode(stats.countNsip, stats.serialList, options.allowedDrift);
    stop := if result.Ok? then SysExit(result.value) else result.error;
    SurveyVerdict(options, resolve, names, probe);
  }

  /** The main program. `nsTargets` is the zone's NS RRset as the resolver
      returns it, `resolve` the system resolver, `net` the network. */
  method Run(options: Options, nsTargets: seq<string>, resolve: map<string, seq<Address>>,
             net: Address -> Network)
    returns (stop: Stop, lines: seq<InfoLine>)
    ensures options.noNsSet && options.additional == [] ==> stop == SysExit(4) && lines == []
    ensures var names := GetNsNames(options.noNsSet, options.additional, nsTargets);
            var probe := Probe(options, net);
            names.Ok? && !MasterAnswers(options, resolve, probe) ==>
              && lines == []
              && stop == (if GetIp(resolve, options.master.value) == [] then IndexError else SysExit(3))
    ensures var names := GetNsNames(options.noNsSet, options.additional, nsTargets);
            var probe := Probe(options, net);
            names.Ok? && MasterAnswers(options, resolve, probe) ==>
              var ts := Targets(resolve, names.value);
              var served := Collected(options, resolve, names.value, probe);
              var result := GetExitCode(Attempted(options, resolve, names.value), served, options.allowedDrift);
              && stop == (if result.Ok? then SysExit(result.value) else result.error)
              && (stop == SysExit(2) <==> exists i :: 0 <= i < |ts| && probe(ts[i].nsip) == None)
              && (stop == IndexError <==> !MasterGiven(options) && ts == [])
              && (stop.SysExit? ==> stop.code in {0, 1, 2})
              && |lines| == |served|
              && forall k :: 0 <= k < |lines| ==> lines[k].serial == served[k]
  {
    var names := GetNsNames(options.noNsSet, options.additional, nsTargets);
    if names.Err? {
      return names.error, [];
    }
    stop, lines := RunSurvey(options, names.value, resolve, Probe(options, net));
  }
}
