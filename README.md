# check_serial: a verified model of the SOA-serial checker's decision logic

`check_serial.py` asks every authoritative nameserver of a DNS zone for the
zone's SOA record. It prints one line per server address that gives a usable
serial. Its exit status says whether all servers agree: 0 when the serials
are equal or within the allowed drift, 1 when the drift is exceeded, 2 when
some address gave no usable serial, 3 when the configured master gave none,
and 4 on a usage error.

This project models that program's decision logic in Dafny. Network access,
name resolution and option parsing are abstracted away:

- `types.dfy` (module `Types`): the typed summary of a response. It holds the
  RCODE, the AA and TC header bits (section 4.1.1 of RFC 1035) and the answer
  RRsets. A serial is the 32-bit SERIAL field of section 3.3.13 of RFC 1035.
  The module also has the outcome of one library call (timeout, reply or
  socket error) and the two early stops (`sys.exit(n)`, uncaught IndexError).
- `transport.dfy` (module `Transport`): `send_query_udp`, `send_query_tcp`
  and `send_query`. `udp(k)` is the outcome of the k-th UDP call and `tcp`
  is the outcome of the TCP call. The methods `SendQueryUdp` and `SendQuery`
  keep the loop and branches of the source and are proved equal to the
  functions `UdpFrom` and `SendQuerySpec`; lemmas about `UdpFrom` give the
  retry bound, the condition for returning None, and stopping at the first
  reply.
- `prober.dfy` (module `Prober`): the validation chain of `get_serial`.
  The method `GetSerial` sends through `SendQuery` and validates. The
  function `ProbeSerial` is the same probe as a function, which the survey
  takes as its probe of an address. The `for ... else` scan for the first
  SOA RRset is a function. The chain is a tagged result with one error per
  failing check. It is also related to an ordered list of checks, which
  shows that the first failing check decides the error.
- `verdict.dfy` (module `Verdict`): `get_exit_code`, with `list.count`, `max`
  and `min`.
- `names.dfy` (module `Names`): `get_nsnames`, with Python's string order
  and `sorted` (insertion sort, proved sorted, a permutation, and unique).
- `report.dfy` (module `Report`): the decision in `print_info`. It decides
  whether a line is printed and whether it shows `MASTER` or the drift.
- `survey.dfy` (module `Survey`): the classes `Prefs` and `Stats`. Their
  methods `CheckMaster` and `CheckAllNs` (with its inner loop
  `CheckAddresses`) update the counters in place. Name resolution is a map
  from name to addresses; a name missing from it does not resolve. Probing
  is a function from an address to an optional serial.
- `check_serial.dfy` (module `CheckSerial`): the main program. It builds the
  name list, runs the survey and computes the exit status. It builds the
  probe from per-address network oracles through `Prober.ProbeSerial`.

Where the program's documented design and its code disagree, the model
follows the code:

- The additional (`-a`) names are placed first, unsorted and not
  deduplicated. Only the published NS targets are sorted (line 210).
- The SOA scan takes the first SOA RRset whatever its owner name
  (lines 117-120).
- An empty survey does not count as "consistent". With nothing attempted
  and no serial, `SERIAL_LIST[0]` raises IndexError (line 218).
- A master whose name resolves to no address also raises IndexError, not
  exit status 3 (line 189).
- A name that fails to resolve adds nothing to the attempted count, so on
  its own it never causes exit status 2 (lines 174-177).

## Model

| member | source | states |
|---|---|---|
| `Transport.Received` | check_serial.py:58-65 | A library call that times out yields None. A reply is passed on unchanged. A socket error is not caught. |
| `Transport.UdpFrom` | check_serial.py:68-79 | The UDP retry loop makes at most max(retries, 0) calls. |
| `Transport.UdpNoAnswerIff` | check_serial.py:70-79 | The loop returns None iff every call it was allowed to make timed out. In that case it made all max(retries, 0) calls. |
| `Transport.UdpStopsAtFirstReply` | check_serial.py:72-77 | Any result other than None comes from the first call that did not time out. The loop stops at that call, and every earlier call timed out. |
| `Transport.SendQueryUdp` | check_serial.py:68-79 | The `while` loop returns exactly the result and the number of calls of the retry policy `UdpFrom`. |
| `Transport.SendQuery` | check_serial.py:82-96 | With TCP forced: one TCP call, no UDP call, and the TCP result. Otherwise: the UDP loop runs. TCP is called once iff the UDP result has TC set, and the TCP result is then returned unchanged. Otherwise the UDP result is returned. |
| `Prober.FirstSoaNoneIff` | check_serial.py:117-122 | The scan finds no serial iff the answer section holds no SOA RRset. |
| `Prober.FirstSoaIsEarliest` | check_serial.py:117-120 | The scan returns the serial of the first record of the earliest SOA RRset. |
| `Prober.ValidateOkIff` | check_serial.py:108-122 | Validation yields a serial iff all five checks pass: a response, RCODE NOERROR, AA set, TC clear, and an SOA RRset present. The serial is that of the first record of the earliest SOA RRset. |
| `Prober.FirstFailureDecides` | check_serial.py:108-122 | The checks short-circuit in source order. The first one that fails decides the error. |
| `Prober.GetSerial` | check_serial.py:99-122 | A probe validates what `send_query` returned. A socket error raised while sending becomes a per-server failure (lines 103-107). |
| `Prober.ProbeSerial` | check_serial.py:99-127 | The serial `get_serial` returns is present iff the response `send_query` chose exists, has RCODE NOERROR, has AA set and TC clear, and holds an SOA RRset. It is then the serial of the first record of the earliest SOA RRset. |
| `Prober.TruncationFallsBackToTcp` | check_serial.py:91-95 | When the UDP response is truncated, only the TCP response decides the probe's outcome. |
| `Prober.StillTruncatedMeansTcp` | check_serial.py:114-115 | Over UDP with fallback, "answer is truncated" is reported only when the UDP response was truncated and the TCP reply also has TC set. |
| `Prober.AllTimeoutsMeanNoResponse` | check_serial.py:108-109 | When every allowed UDP call times out, the probe reports no answer. |
| `Verdict.MaxOf` | check_serial.py:220 | `max` returns an element of the list that is at least every element. |
| `Verdict.MinOf` | check_serial.py:220 | `min` returns an element of the list that is at most every element. |
| `Verdict.CountIsLengthIff` | check_serial.py:218 | `count(x) == len` iff every element is `x`. |
| `Verdict.CountOfFirstIff` | check_serial.py:218 | The test `count(SERIAL_LIST[0]) == len(SERIAL_LIST)` holds iff all serials are equal. |
| `Verdict.GetExitCode` | check_serial.py:213-223 | The code raises IndexError iff nothing was attempted and no serial was collected. Otherwise it returns 0, 1 or 2. |
| `Verdict.ExitCodePolicy` | check_serial.py:216-223 | The code is 2 whenever the attempted count differs from the number of serials, whatever the serials are. With equal serials it is 0. With unequal serials it is 1 iff max - min exceeds the allowed drift, and 0 otherwise. |
| `Verdict.SpreadZeroIff` | check_serial.py:218-220 | max - min is 0 iff all serials are equal. |
| `Verdict.ExitCodeWithNonNegativeDrift` | check_serial.py:218-223 | For a drift of 0 or more, the code is 1 iff max - min exceeds the drift, and 0 otherwise. |
| `Verdict.NegativeDriftStillAcceptsEqualSerials` | check_serial.py:218-222 | For a negative drift, equal serials still give 0, although their spread exceeds the drift. |
| `Names.Insert` | check_serial.py:210 | Inserting into a sorted list keeps it sorted and adds exactly that one name. |
| `Names.SortNames` | check_serial.py:210 | `sorted` returns a sorted permutation of its input, in Python's string order. |
| `Names.SortedPermutationUnique` | check_serial.py:210 | Two sorted lists with the same names are the same list. So sorted-and-permutation determines what `sorted` returns. |
| `Names.GetNsNames` | check_serial.py:200-210 | With `-n` and a non-empty `-a` list, the names are that list unchanged. With `-n` and an empty `-a` list, the run ends with the usage exit 4. Otherwise the names are the `-a` list as given, followed by a sorted permutation of the NS targets. |
| `Report.PrintInfo` | check_serial.py:139-148 | With a master address and either serial missing, nothing is printed. Otherwise the line shows the server's serial, name and address. The line has no tag iff no master is configured. Otherwise it is tagged MASTER iff the address equals the master address, and else carries drift = master serial - serial. |
| `Report.DriftSign` | check_serial.py:142-146 | The drift is negative iff the server is ahead of the master, and 0 iff it has the master's serial. |
| `Report.MasterAddressIsLabelled` | check_serial.py:143-144 | A server at the master's address is labelled MASTER whatever serial it reports. |
| `Survey.TargetsCount` | check_serial.py:174-177 | There is one probe target per resolved address across all names. |
| `Survey.SerialsCount` | check_serial.py:177-180 | At most one serial is collected per target. Exactly one per target is collected iff every probe succeeded. |
| `Survey.SerialsFromProbes` | check_serial.py:178-180 | Every collected serial is what some target's probe returned. |
| `Survey.LinesMatchSerials` | check_serial.py:179-182 | While the master serial is known, or no master is configured, each collected serial gets exactly one status line, in the same order, showing that serial. |
| `Survey.Stats.CheckMaster` | check_serial.py:185-197 | Without a master nothing changes. A master with no address raises IndexError and changes nothing. Otherwise MASTER_IP is its first address, COUNT_NSIP grows by 1 and MASTER_SERIAL is that address's probe result. A missing serial exits with 3 and adds nothing to the list. A present serial is appended and printed with the MASTER tag. |
| `Survey.Stats.CheckAddresses` | check_serial.py:176-182 | One name's addresses: COUNT_NSIP grows by their number. Their serials are appended in address order, and their lines are printed. |
| `Survey.Stats.CheckAllNs` | check_serial.py:167-182 | COUNT_NSIP grows by the total number of resolved addresses. SERIAL_LIST gets exactly the non-None probe serials appended, in name-then-address order. COUNT_NSIP - len(SERIAL_LIST) never decreases, and stays the same iff every probe succeeded. |
| `CheckSerial.SurveyVerdict` | check_serial.py:185-223 | After the master has answered, the exit code is 2 iff some surveyed address gave no serial. The run raises IndexError iff there was no master and no address at all. |
| `CheckSerial.RunSurvey` | check_serial.py:290-292 | A failing master stops the run before any survey line, with exit 3 or IndexError. Otherwise the exit status is `get_exit_code` applied to the master and survey totals: 2 iff some address failed, IndexError iff there was nothing to probe. One line is printed per collected serial, showing it. |
| `CheckSerial.Run` | check_serial.py:286-292 | `-n` without `-a` exits with 4 and prints nothing. A failing master gives exit 3 (or IndexError) with no lines. Otherwise the exit status is `get_exit_code` applied to the master and survey totals of the names `get_nsnames` chose. It is 0, 1 or 2, and it is 2 iff some probed address gave no usable serial. One line is printed per collected serial, in order, showing that serial. |

## Left out

- Option parsing and the usage text (`process_args`, `usage`, lines 226-283) are not modelled. `Survey.Options` stands for the options they set. Usage's `sys.exit(4)` appears as the usage stop of `GetNsNames`.
- The DNS library and the system resolver are replaced by inputs. Query construction with the RD and DO bits (lines 85-86) is not modelled; nor is the UDP/TCP wire exchange, the NS lookup (`nsTargets`) or `getaddrinfo` (`resolve`, lines 152-164, including the address-family filter).
- The per-attempt timeout value only parameterises library calls, so it is not modelled. A call either times out or returns.
- Exceptions other than timeouts and socket errors are not modelled. These include a failing NS lookup and a malformed response; in the program they end the run with a traceback.
- An uncaught IndexError is a `Stop.IndexError` value. The model does not give the status number the interpreter then exits with.
- EDNS0 NSID is not modelled: requesting it (lines 87-88), reading it (lines 123-126) and printing it (lines 132-138). Line 124 dereferences the response even when there is none; with NSID left out, that failure is not modelled.
- The exact text of the printed lines, their column widths, and the warnings and errors written alongside them are not modelled.
- Serial-number arithmetic (RFC 1982) is not modelled, because the program subtracts and compares serials as plain integers.
- CheckSerial.Run: the probe of an address is a function of the address, so probing the same address twice (under two names, or as master and nameserver) gives the same answer both times. The program sends fresh queries each time.

