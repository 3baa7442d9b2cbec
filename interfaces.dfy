/** The operating system's interface table as the library sees it through
    net.Interfaces and net.InterfaceByName, and the two views the library
    builds from it: the non-loopback interfaces and the name-to-address map. */
module Interfaces {
  import opened Wrappers
  import opened MacErrors
  import opened HwAddr

  /** Interface names are Go strings, that is byte strings. */
  type Name = seq<Byte>

  /** Bits of net.Flags. */
  const FlagUp: bv32 := 0x01
  const FlagLoopback: bv32 := 0x04

  /** What the device driver answers to the ETHTOOL_GPERMADDR query: the
      burned-in address, or a non-zero errno. */
  datatype PermAnswer = Burned(addr: Mac6) | Unsupported(errno: ErrnoCode)

  /** One row of the interface table: net.Interface's name, flags and
      current hardware address, and the driver's permanent-address answer. */
  datatype Iface = Iface(name: Name, flags: bv32, hwAddr: seq<Byte>, perm: PermAnswer)

  predicate IsUp(iface: Iface)
  {
    iface.flags & FlagUp != 0
  }

  predicate IsLoopback(iface: Iface)
  {
    iface.flags & FlagLoopback != 0
  }

  /** Kernel interface names are unique. */
  ghost predicate DistinctNames(t: seq<Iface>)
  {
    forall i, j :: 0 <= i < j < |t| ==> t[i].name != t[j].name
  }

  /** The bytes Linux refuses inside an interface name: NUL, ':', '/' and
      white space (space, and tab through carriage return). */
  predicate ForbiddenInName(b: Byte)
  {
    b == 0 || b == 0x3A || b == 0x2F || b == 0x20 || 0x09 <= b <= 0x0D
  }

  /** A name Linux accepts for an interface: 1 to 15 bytes, so that it fits
      the 16-byte name field with its terminator, none of them forbidden. */
  predicate KernelName(n: Name)
  {
    0 < |n| < 16 && forall k :: 0 <= k < |n| ==> !ForbiddenInName(n[k])
  }

  /** The table as the kernel keeps it: every name a kernel name, no name
      twice. */
  ghost predicate WellFormed(t: seq<Iface>)
  {
    DistinctNames(t) && forall i :: 0 <= i < |t| ==> KernelName(t[i].name)
  }

  /** A name cut before its first ':', as Linux cuts the name of an ioctl
      request to drop an alias suffix. */
  function CutAtColon(n: seq<Byte>): (r: seq<Byte>)
    ensures |r| <= |n| && r == n[..|r|]
    ensures forall k :: 0 <= k < |r| ==> r[k] != 0x3A
  {
    if n == [] || n[0] == 0x3A then [] else [n[0]] + CutAtColon(n[1..])
  }

  lemma {:induction false} CutAtColonOfPlain(n: seq<Byte>)
    requires forall k :: 0 <= k < |n| ==> n[k] != 0x3A
    ensures CutAtColon(n) == n
  {
    if n != [] {
      CutAtColonOfPlain(n[1..]);
      assert n == [n[0]] + n[1..];
    }
  }

  /** The name Linux looks an ioctl request up under: the C-string prefix of
      the name field's first 15 bytes (the kernel zeroes the 16th), cut before
      its first ':'. */
  function RequestName(field: seq<Byte>): (name: seq<Byte>)
    requires |field| == 16
    ensures |name| < 16
    ensures forall k :: 0 <= k < |name| ==> name[k] != 0 && name[k] != 0x3A
  {
    var prefix := FieldName(field[..15]);
    FieldNameNoZero(field[..15]);
    CutAtColon(prefix)
  }

  /** The name field of a request about an interface of the table names that
      very interface: the kernel's lookup name is the table name, and that
      name finds the interface. */
  lemma KernelNameField(t: seq<Iface>, i: nat)
    requires WellFormed(t) && i < |t|
    ensures FieldName(NameField(t[i].name)) == t[i].name
    ensures RequestName(NameField(t[i].name)) == t[i].name
    ensures Find(t, RequestName(NameField(t[i].name))) == Some(i)
  {
    var name := t[i].name;
    var field := NameField(name);
    assert KernelName(name);
    NameFieldRoundTrip(name);
    FieldNameOfPrefix(name, field[..15]);
    CutAtColonOfPlain(name);
  }

  /** net.InterfaceByName: the position of the interface with that name. The
      empty name is refused before the table is consulted. */
  function Find(t: seq<Iface>, name: Name): (r: Option<nat>)
    ensures name == [] ==> r.None?
    ensures r.Some? ==> r.value < |t| && t[r.value].name == name
    ensures r.Some? ==> forall j :: 0 <= j < r.value ==> t[j].name != name
    ensures r.None? <==> name == [] || forall j :: 0 <= j < |t| ==> t[j].name != name
  {
    if name == [] || t == [] then None
    else if t[0].name == name then Some(0)
    else
      match Find(t[1..], name)
      case None => None
      case Some(k) => Some(k + 1)
  }

  /** The interfaces GetInterfaces keeps: those whose loopback flag is clear,
      in table order. */
  function NonLoopback(t: seq<Iface>): (r: seq<Iface>)
    ensures |r| <= |t|
  {
    if t == [] then []
    else
      var last := t[|t| - 1];
      NonLoopback(t[..|t| - 1]) + if IsLoopback(last) then [] else [last]
  }

  /** Exactly the non-loopback interfaces are kept. */
  lemma {:induction false} NonLoopbackMembers(t: seq<Iface>)
    ensures forall x :: x in NonLoopback(t) <==> x in t && !IsLoopback(x)
  {
    if t != [] {
      NonLoopbackMembers(t[..|t| - 1]);
      assert t == t[..|t| - 1] + [t[|t| - 1]];
    }
  }

  /** The filter keeps the table's order: filtering a concatenation is the
      concatenation of the filtered parts. */
  lemma {:induction false} NonLoopbackAppend(a: seq<Iface>, b: seq<Iface>)
    ensures NonLoopback(a + b) == NonLoopback(a) + NonLoopback(b)
  {
    if b != [] {
      var init := b[..|b| - 1];
      NonLoopbackAppend(a, init);
      assert (a + b)[..|a + b| - 1] == a + init;
      assert b[|b| - 1] == (a + b)[|a + b| - 1];
    } else {
      assert a + b == a;
    }
  }

  /** Filtering keeps names distinct. */
  lemma {:induction false} NonLoopbackDistinct(t: seq<Iface>)
    requires DistinctNames(t)
    ensures DistinctNames(NonLoopback(t))
  {
    if t != [] {
      var init := t[..|t| - 1];
      var last := t[|t| - 1];
      NonLoopbackDistinct(init);
      NonLoopbackMembers(init);
      var r := NonLoopback(t);
      if !IsLoopback(last) {
        forall i | 0 <= i < |r| - 1
          ensures r[i].name != last.name
        {
          assert r[i] in NonLoopback(init);
          assert r[i] in init;
        }
      }
    }
  }

  /** The map GetAllCurrentMacs fills: name to canonical address text, one
      entry per interface in order, so a later name overwrites an earlier. */
  function MacMap(ifs: seq<Iface>): (m: map<Name, string>)
  {
    if ifs == [] then map[]
    else
      var last := ifs[|ifs| - 1];
      MacMap(ifs[..|ifs| - 1])[last.name := Format(last.hwAddr)]
  }

  /** The map's keys are exactly the interfaces' names. */
  lemma {:induction false} MacMapKeys(ifs: seq<Iface>)
    ensures forall n :: n in MacMap(ifs) <==> exists i :: 0 <= i < |ifs| && ifs[i].name == n
  {
    if ifs != [] {
      var init := ifs[..|ifs| - 1];
      MacMapKeys(init);
      forall n
        ensures n in MacMap(ifs) <==> exists i :: 0 <= i < |ifs| && ifs[i].name == n
      {
        if n in MacMap(init) {
          var i :| 0 <= i < |init| && init[i].name == n;
          assert ifs[i].name == n;
        }
        if exists i :: 0 <= i < |ifs| && ifs[i].name == n {
          var i :| 0 <= i < |ifs| && ifs[i].name == n;
          if i < |init| {
            assert init[i].name == n;
          }
        }
      }
    }
  }

  /** The last interface's name is new to the map of the ones before it. */
  lemma LastNameFresh(ifs: seq<Iface>)
    requires DistinctNames(ifs) && ifs != []
    ensures DistinctNames(ifs[..|ifs| - 1])
    ensures ifs[|ifs| - 1].name !in MacMap(ifs[..|ifs| - 1])
  {
    var init := ifs[..|ifs| - 1];
    forall i | 0 <= i < |init|
      ensures init[i].name != ifs[|ifs| - 1].name
    {
      assert init[i] == ifs[i];
    }
    MacMapKeys(init);
  }

  /** With distinct names the map has one entry per interface. */
  lemma {:induction false} MacMapSize(ifs: seq<Iface>)
    requires DistinctNames(ifs)
    ensures |MacMap(ifs)| == |ifs|
  {
    if ifs != [] {
      LastNameFresh(ifs);
      MacMapSize(ifs[..|ifs| - 1]);
    }
  }

  /** With distinct names each interface's entry holds its canonical
      address text. */
  lemma {:induction false} MacMapValues(ifs: seq<Iface>)
    requires DistinctNames(ifs)
    ensures forall i :: 0 <= i < |ifs| ==>
      ifs[i].name in MacMap(ifs) && MacMap(ifs)[ifs[i].name] == Format(ifs[i].hwAddr)
  {
    if ifs != [] {
      var init := ifs[..|ifs| - 1];
      var last := ifs[|ifs| - 1];
      LastNameFresh(ifs);
      MacMapValues(init);
      forall i | 0 <= i < |ifs|
        ensures ifs[i].name in MacMap(ifs) && MacMap(ifs)[ifs[i].name] == Format(ifs[i].hwAddr)
      {
        if i < |init| {
          assert init[i] == ifs[i];
          assert ifs[i].name != last.name;
        }
      }
    }
  }
}
