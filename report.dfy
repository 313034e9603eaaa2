/** The decision in `print_info`: whether a status line is emitted for a
    server, and whether it carries the MASTER label or the drift from the
    master's serial. The text and the column widths of the line are not
    part of this model. */
module Report {
  import opened Types

  /** The bracketed column: absent when no master is configured. */
  datatype Tag = Untagged | MasterTag | DriftTag(drift: int)

  /** One status line: serial, tag, nameserver name and address. */
  datatype InfoLine = InfoLine(serial: Serial, tag: Tag, nsname: string, nsip: Address)

  /** The line printed for a server, or None when nothing is printed. With
      no master address the serial is formatted unconditionally, so the
      source needs one there. */
  function PrintInfo(serial: Option<Serial>, masterSerial: Option<Serial>, nsname: string,
                     nsip: Address, masterIp: Option<Address>): (r: Option<InfoLine>)
    requires masterIp == None ==> serial.Some?
    ensures r == None <==> masterIp.Some? && (serial == None || masterSerial == None)
    ensures r.Some? ==> r.value.serial == serial.value && r.value.nsname == nsname && r.value.nsip == nsip
    ensures r.Some? ==> (r.value.tag == Untagged <==> masterIp == None)
    ensures r.Some? && masterIp.Some? ==> (r.value.tag == MasterTag <==> nsip == masterIp.value)
    ensures r.Some? && r.value.tag.DriftTag? ==> r.value.tag.drift == masterSerial.value - serial.value
  {
    match masterIp
    case None => Some(InfoLine(serial.value, Untagged, nsname, nsip))
    case Some(mip) =>
      if serial == None || masterSerial == None then None
      else if nsip == mip then Some(InfoLine(serial.value, MasterTag, nsname, nsip))
      else Some(InfoLine(serial.value, DriftTag(masterSerial.value - serial.value), nsname, nsip))
  }

  /** The drift is negative exactly when the server is ahead of the master,
      and zero exactly when it has the master's serial. */
  lemma DriftSign(serial: Serial, master: Serial, nsname: string, nsip: Address, mip: Address)
    requires nsip != mip
    ensures var r := PrintInfo(Some(serial), Some(master), nsname, nsip, Some(mip));
            r.Some? && r.value.tag.DriftTag? &&
            (r.value.tag.drift < 0 <==> serial > master) &&
            (r.value.tag.drift == 0 <==> serial == master)
  {
  }

  /** A server that shares the master's address is labelled MASTER whatever
      serial it reports; no drift is shown for it. */
  lemma MasterAddressIsLabelled(serial: Serial, master: Serial, nsname: string, mip: Address)
    ensures PrintInfo(Some(serial), Some(master), nsname, mip, Some(mip)) ==
              Some(InfoLine(serial, MasterTag, nsname, mip))
  {
  }
}
