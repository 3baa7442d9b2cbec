/** The address accessors and the address mutator of libmacouflage.

    Reads (GetCurrentMac, GetPermanentMac, IsIfUp, MacChanged) are functions
    of the interface table as it is at the moment of the call. The mutating
    entry points (SetMac, RevertMac) and the two enumeration loops
    (GetInterfaces, GetAllCurrentMacs) are methods of Host, the object that
    holds the process identity and the interface table. The errno with which
    the kernel answers the SIOCSIFHWADDR request is the parameter sysErrno
    (0: accepted). */
module Macouflage {
  import opened Wrappers
  import opened MacErrors
  import opened HwAddr
  import opened Interfaces

  /** The fields of user.Current() that RunningAsRoot inspects. */
  datatype Identity = Identity(uid: string, gid: string, username: string)

  /** RunningAsRoot: uid "0", gid "0" and user name "root", all three. */
  function RunningAsRoot(user: Identity): (result: bool)
    ensures result <==> user == Identity("0", "0", "root")
  {
    user.uid == "0" && user.gid == "0" && user.username == "root"
  }

  /** GetCurrentMac: the address net.InterfaceByName reports. */
  function GetCurrentMac(t: seq<Iface>, name: Name): (r: Result<seq<Byte>, MacError>)
    ensures r.Failure? <==> Find(t, name).None?
    ensures r.Failure? ==> r.error == NoSuchInterface
    ensures r.Success? ==> r.value == t[Find(t, name).value].hwAddr
  {
    match Find(t, name)
    case None => Failure(NoSuchInterface)
    case Some(i) => Success(t[i].hwAddr)
  }

  /** GetPermanentMac: the ETHTOOL_GPERMADDR query. The kernel answers ENODEV
      for a name it does not know, and the driver's errno when it rejects
      the query. */
  function GetPermanentMac(t: seq<Iface>, name: Name): (r: Result<Mac6, MacError>)
    ensures Find(t, name).None? ==> r == Failure(Errno(ENODEV))
    ensures Find(t, name).Some? && t[Find(t, name).value].perm.Unsupported? ==>
      r == Failure(Errno(t[Find(t, name).value].perm.errno))
    ensures r.Success? <==> Find(t, name).Some? && t[Find(t, name).value].perm.Burned?
    ensures r.Success? ==> r.value == t[Find(t, name).value].perm.addr
  {
    match Find(t, name)
    case None => Failure(Errno(ENODEV))
    case Some(i) =>
      match t[i].perm
      case Burned(addr) => Success(addr)
      case Unsupported(e) => Failure(Errno(e))
  }

  /** IsIfUp: the up flag of the named interface. */
  function IsIfUp(t: seq<Iface>, name: Name): (r: Result<bool, MacError>)
    ensures r.Failure? <==> Find(t, name).None?
    ensures r.Failure? ==> r.error == NoSuchInterface
    ensures r.Success? ==> (r.value <==> t[Find(t, name).value].flags & FlagUp != 0)
  {
    match Find(t, name)
    case None => Failure(NoSuchInterface)
    case Some(i) => Success(IsUp(t[i]))
  }

  /** MacChanged: the current address is read first and its error wins, then
      the permanent address; the answer is whether the two differ. */
  function MacChanged(t: seq<Iface>, name: Name): (r: Result<bool, MacError>)
    ensures Find(t, name).None? ==> r == Failure(NoSuchInterface)
    ensures Find(t, name).Some? && t[Find(t, name).value].perm.Unsupported? ==>
      r == Failure(Errno(t[Find(t, name).value].perm.errno))
    ensures Find(t, name).Some? && t[Find(t, name).value].perm.Burned? ==>
      r == Success(t[Find(t, name).value].hwAddr != t[Find(t, name).value].perm.addr)
  {
    match GetCurrentMac(t, name)
    case Failure(e) => Failure(e)
    case Success(current) =>
      match GetPermanentMac(t, name)
      case Failure(e) => Failure(e)
      case Success(permanent) => Success(!CompareMacs(current, permanent))
  }

  /** The state after a call: the error it returned, if any, and the
      interface table it leaves behind. */
  datatype Outcome = Outcome(err: Option<MacError>, table: seq<Iface>)

  /** The table after SIOCSIFHWADDR sets the address of interface i. */
  function Assign(t: seq<Iface>, i: nat, addr: seq<Byte>): (u: seq<Iface>)
    requires i < |t|
    ensures |u| == |t| && u[i].hwAddr == addr
    ensures forall j :: 0 <= j < |t| ==>
      u[j].name == t[j].name && u[j].flags == t[j].flags && u[j].perm == t[j].perm
    ensures forall j :: 0 <= j < |t| && j != i ==> u[j] == t[j]
  {
    t[i := t[i].(hwAddr := addr)]
  }

  /** SetMac(name, mac): root identity, then the interface (its existence and
      that it is down), then the address text, then the kernel's answer. The
      first failing check is the error and the table is left as it was. */
  function SetMacOutcome(user: Identity, t: seq<Iface>, name: Name, mac: string, sysErrno: int): (o: Outcome)
    ensures o.err.Some? ==> o.table == t
    ensures !RunningAsRoot(user) ==> o.err == Some(NotRoot)
    ensures RunningAsRoot(user) && Find(t, name).None? ==> o.err == Some(NoSuchInterface)
    ensures RunningAsRoot(user) && Find(t, name).Some? && IsUp(t[Find(t, name).value]) ==>
      o.err == Some(InterfaceStillUp)
    ensures (RunningAsRoot(user) && Find(t, name).Some? && !IsUp(t[Find(t, name).value]) &&
             ParseMac(mac).None?) ==> o.err == Some(InvalidAddress)
    ensures (RunningAsRoot(user) && Find(t, name).Some? && !IsUp(t[Find(t, name).value]) &&
             ParseMac(mac).Some? && sysErrno != 0) ==> o.err == Some(Errno(sysErrno))
    ensures o.err.None? <==>
      RunningAsRoot(user) && Find(t, name).Some? && !IsUp(t[Find(t, name).value]) &&
      ParseMac(mac).Some? && sysErrno == 0
    ensures o.err.None? ==> o.table == Assign(t, Find(t, name).value, ParseMac(mac).value)
  {
    if !RunningAsRoot(user) then Outcome(Some(NotRoot), t)
    else
      match IsIfUp(t, name)
      case Failure(e) => Outcome(Some(e), t)
      case Success(up) =>
        if up then Outcome(Some(InterfaceStillUp), t)
        else
          match ParseMac(mac)
          case None => Outcome(Some(InvalidAddress), t)
          case Some(addr) =>
            if sysErrno != 0 then Outcome(Some(Errno(sysErrno)), t)
            else Outcome(None, Assign(t, Find(t, name).value, addr))
  }

  /** After a successful SetMac the interface reports the parsed address,
      every other name reports what it did before, and no permanent address
      changed. */
  lemma SetMacRoundTrip(user: Identity, t: seq<Iface>, name: Name, mac: string, sysErrno: int)
    requires SetMacOutcome(user, t, name, mac, sysErrno).err.None?
    ensures ParseMac(mac).Some?
    ensures GetCurrentMac(SetMacOutcome(user, t, name, mac, sysErrno).table, name) == Success(ParseMac(mac).value)
    ensures forall n :: n != name ==>
      GetCurrentMac(SetMacOutcome(user, t, name, mac, sysErrno).table, n) == GetCurrentMac(t, n)
    ensures forall n ::
      GetPermanentMac(SetMacOutcome(user, t, name, mac, sysErrno).table, n) == GetPermanentMac(t, n)
  {
  }

  /** RevertMac(name): the interface must exist, then its permanent address
      is read, then SetMac is called with that address's canonical text. */
  function RevertMacOutcome(user: Identity, t: seq<Iface>, name: Name, sysErrno: int): (o: Outcome)
    ensures o.err.Some? ==> o.table == t
    ensures Find(t, name).None? ==> o.err == Some(NoSuchInterface)
    ensures Find(t, name).Some? && t[Find(t, name).value].perm.Unsupported? ==>
      o.err == Some(Errno(t[Find(t, name).value].perm.errno))
    ensures Find(t, name).Some? && t[Find(t, name).value].perm.Burned? ==>
      o == SetMacOutcome(user, t, name, Format(t[Find(t, name).value].perm.addr), sysErrno)
  {
    match Find(t, name)
    case None => Outcome(Some(NoSuchInterface), t)
    case Some(_) =>
      match GetPermanentMac(t, name)
      case Failure(e) => Outcome(Some(e), t)
      case Success(permanent) => SetMacOutcome(user, t, name, Format(permanent), sysErrno)
  }

  /** RevertMac succeeds exactly when SetMac's own checks pass for an
      interface whose driver reports a permanent address: the canonical text
      it passes always parses. */
  lemma RevertMacSucceeds(user: Identity, t: seq<Iface>, name: Name, sysErrno: int)
    ensures RevertMacOutcome(user, t, name, sysErrno).err.None? <==>
      RunningAsRoot(user) && Find(t, name).Some? && !IsUp(t[Find(t, name).value]) &&
      t[Find(t, name).value].perm.Burned? && sysErrno == 0
  {
    if Find(t, name).Some? && t[Find(t, name).value].perm.Burned? {
      ParseFormat(t[Find(t, name).value].perm.addr);
    }
  }

  /** After a successful RevertMac the current address is the permanent one
      and MacChanged answers false. */
  lemma RevertClearsChanged(user: Identity, t: seq<Iface>, name: Name, sysErrno: int)
    requires RevertMacOutcome(user, t, name, sysErrno).err.None?
    ensures GetCurrentMac(RevertMacOutcome(user, t, name, sysErrno).table, name) ==
      Success(GetPermanentMac(t, name).value)
    ensures MacChanged(RevertMacOutcome(user, t, name, sysErrno).table, name) == Success(false)
  {
    var i := Find(t, name).value;
    var permanent := t[i].perm.addr;
    ParseFormat(permanent);
    SetMacRoundTrip(user, t, name, Format(permanent), sysErrno);
  }

  /** The process identity and the operating system's interface table. */
  class Host {
    const user: Identity
    var table: seq<Iface>

    /** The table keeps the kernel's guarantees on names. */
    ghost predicate Valid()
      reads this
    {
      WellFormed(table)
    }

    constructor (user: Identity, table: seq<Iface>)
      requires WellFormed(table)
      ensures Valid()
      ensures this.user == user && this.table == table
    {
      this.user := user;
      this.table := table;
    }

    /** SetMac(name, mac); sysErrno is the kernel's answer to the request. */
    method SetMac(name: Name, mac: string, sysErrno: int) returns (err: Option<MacError>)
      requires Valid()
      modifies this`table
      ensures Valid()
      ensures Outcome(err, table) == SetMacOutcome(user, old(table), name, mac, sysErrno)
      ensures err.None? ==> GetCurrentMac(table, name) == Success(ParseMac(mac).value)
    {
      var root := RunningAsRoot(user);
      if !root {
        return Some(NotRoot);
      }
      var up := IsIfUp(table, name);
      if up.Failure? {
        return Some(up.error);
      }
      if up.value {
        return Some(InterfaceStillUp);
      }
      var addr := ParseMac(mac);
      if addr.None? {
        return Some(InvalidAddress);
      }
      if sysErrno != 0 {
        return Some(Errno(sysErrno));
      }
      SetMacRoundTrip(user, table, name, mac, sysErrno);
      table := Assign(table, Find(table, name).value, addr.value);
      err := None;
    }

    /** RevertMac(name): set the interface back to its permanent address. */
    method RevertMac(name: Name, sysErrno: int) returns (err: Option<MacError>)
      requires Valid()
      modifies this`table
      ensures Valid()
      ensures Outcome(err, table) == RevertMacOutcome(user, old(table), name, sysErrno)
      ensures err.None? ==> MacChanged(table, name) == Success(false)
    {
      if Find(table, name).None? {
        return Some(NoSuchInterface);
      }
      var permanent := GetPermanentMac(table, name);
      if permanent.Failure? {
        return Some(permanent.error);
      }
      ghost var before := table;
      err := SetMac(name, Format(permanent.value), sysErrno);
      if err.None? {
        RevertClearsChanged(user, before, name, sysErrno);
      }
    }

    /** GetInterfaces: every interface whose loopback flag is clear, in
        table order. */
    method GetInterfaces() returns (ifaces: seq<Iface>)
      ensures ifaces == NonLoopback(table)
      ensures forall x :: x in ifaces <==> x in table && !IsLoopback(x)
    {
      ifaces := [];
      for i := 0 to |table|
        invariant ifaces == NonLoopback(table[..i])
      {
        var iface := table[i];
        assert table[..i + 1][..i] == table[..i];
        if iface.flags & FlagLoopback == 0 {
          ifaces := ifaces + [iface];
        }
      }
      assert table[..|table|] == table;
      NonLoopbackMembers(table);
    }

    /** GetAllCurrentMacs: interface name to canonical address text over the
        interfaces GetInterfaces returns, one entry for each of them. */
    method GetAllCurrentMacs() returns (macs: map<Name, string>)
      requires Valid()
      ensures macs == MacMap(NonLoopback(table))
      ensures |macs| == |NonLoopback(table)|
      ensures forall x :: x in NonLoopback(table) ==> x.name in macs && macs[x.name] == Format(x.hwAddr)
    {
      var ifaces := GetInterfaces();
      macs := map[];
      for i := 0 to |ifaces|
        invariant macs == MacMap(ifaces[..i])
      {
        assert ifaces[..i + 1][..i] == ifaces[..i];
        macs := macs[ifaces[i].name := Format(ifaces[i].hwAddr)];
      }
      assert ifaces[..|ifaces|] == ifaces;
      NonLoopbackDistinct(table);
      MacMapSize(ifaces);
      MacMapValues(ifaces);
    }
  }
}
