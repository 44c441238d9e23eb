/** Choosing the host's external IPv4 address (addr.go), together with the
    parts of Go's `net.IP` it relies on: the IPv4 form (`To4`), the
    loopback test (`IsLoopback`) and dotted-decimal text (`String`). */
module Addr {
  import opened Wrappers
  import opened Errors

  type byte = x: int | 0 <= x < 256

  /** An IP address as its bytes: 4 for IPv4, 16 for IPv6. */
  type IP = seq<byte>

  /** The entries of the interface address list. Go's list holds values of
      an interface type; the selection looks at the address of the two
      concrete types it knows and treats any other entry as having none. */
  datatype InterfaceAddr =
    | IPNet(ip: Option<IP>, mask: seq<byte>)
    | IPAddr(ip: Option<IP>, zone: string)
    | OtherAddr(network: string)

  /** What interface enumeration yields: the address list, or the text of
      the error that made it fail. */
  datatype Enumeration = Addrs(list: seq<InterfaceAddr>) | EnumFailure(reason: string)

  /** The error when no address qualifies (code 95). */
  const NoNetwork: Error := Error("Are you connected to the network?!", 95)

  const EnumerationPrefix: string := "Could not get interface addresses: "

  /** The error when enumeration fails (code 96), quoting the cause. */
  function EnumerationError(reason: string): (e: Error)
    ensures e.Code() == 96
    ensures |e.Text()| >= |EnumerationPrefix| && e.Text()[..|EnumerationPrefix|] == EnumerationPrefix
    ensures e.Text()[|EnumerationPrefix|..] == reason
  {
    Error(EnumerationPrefix + reason, 96)
  }

  /** The first 12 bytes of an IPv4-mapped IPv6 address (section 2.5.5.2
      of RFC 4291): ten zero bytes, then two 0xff bytes. */
  const V4InV6Prefix: seq<byte> := [0, 0, 0, 0, 0, 0, 0, 0, 0, 0, 0xff, 0xff]

  /** The IPv6 loopback address ::1 (section 2.5.3 of RFC 4291). */
  const IPv6Loopback: IP := [0, 0, 0, 0, 0, 0, 0, 0, 0, 0, 0, 0, 0, 0, 0, 1]

  predicate IsZeros(b: seq<byte>)
  {
    forall j :: 0 <= j < |b| ==> b[j] == 0
  }

  /** Go's `IP.To4`: a 4-byte address as it is, the last 4 bytes of a
      16-byte IPv4-mapped address, and no IPv4 form otherwise. */
  function To4(ip: IP): (r: Option<IP>)
    ensures r.Some? <==> |ip| == 4 || (|ip| == 16 && ip[..12] == V4InV6Prefix)
    ensures r.Some? ==> |r.value| == 4 && r.value == ip[|ip| - 4..]
  {
    if |ip| == 4 then Some(ip)
    else if |ip| == 16 && IsZeros(ip[..10]) && ip[10] == 0xff && ip[11] == 0xff then Some(ip[12..16])
    else None
  }

  /** Go's `IP.IsLoopback`: an address with an IPv4 form is loopback when
      that form starts with 127; any other address only when it equals ::1. */
  function IsLoopback(ip: IP): bool
  {
    match To4(ip)
    case Some(ip4) => ip4[0] == 127
    case None => ip == IPv6Loopback
  }

  /** The loopback addresses on the raw bytes: 127.0.0.0/8 (section
      3.2.1.3 of RFC 1122), the same block mapped into IPv6, and ::1. */
  lemma LoopbackIff(ip: IP)
    ensures IsLoopback(ip) <==>
      || (|ip| == 4 && ip[0] == 127)
      || (|ip| == 16 && ip[..12] == V4InV6Prefix && ip[12] == 127)
      || ip == IPv6Loopback
  {
    if |ip| == 16 && ip[..12] == V4InV6Prefix {
      assert ip != IPv6Loopback by {
        assert ip[11] != IPv6Loopback[11];
      }
    }
  }

  /** An IPv4 address and its IPv4-mapped IPv6 form have the same IPv4
      form, which is the address itself. */
  lemma To4MappedRoundTrip(b: IP)
    requires |b| == 4
    ensures To4(b) == Some(b)
    ensures To4(V4InV6Prefix + b) == Some(b)
  {
    assert (V4InV6Prefix + b)[..12] == V4InV6Prefix;
    assert (V4InV6Prefix + b)[12..] == b;
  }

  /** Taking the IPv4 form twice changes nothing. */
  lemma To4Idempotent(ip: IP)
    requires To4(ip).Some?
    ensures To4(To4(ip).value) == To4(ip)
  {
  }

  // ---------------------------------------------------------------------
  // Dotted-decimal text

  predicate IsDigit(c: char)
  {
    '0' as int <= c as int <= '9' as int
  }

  function DigitChar(d: int): char
    requires 0 <= d < 10
  {
    ('0' as int + d) as char
  }

  /** The number a string of decimal digits denotes. */
  function DigitsValue(s: string): nat
    requires forall j :: 0 <= j < |s| ==> IsDigit(s[j])
  {
    if s == [] then 0
    else
      assert IsDigit(s[|s| - 1]);
      DigitsValue(s[..|s| - 1]) * 10 + (s[|s| - 1] as int - '0' as int)
  }

  /** The decimal text of `n`, with no leading zero: what Go prints for a
      byte of an IPv4 address. */
  function Decimal(n: nat): (r: string)
    ensures 1 <= |r|
    ensures forall j :: 0 <= j < |r| ==> IsDigit(r[j])
    ensures r[0] == '0' ==> n == 0
    ensures DigitsValue(r) == n
  {
    if n < 10 then [DigitChar(n)] else Decimal(n / 10) + [DigitChar(n % 10)]
  }

  /** A byte has at most three decimal digits. */
  lemma ByteDigits(n: byte)
    ensures |Decimal(n)| <= 3
  {
    if n >= 10 {
      assert |Decimal(n)| == |Decimal(n / 10)| + 1;
      if n / 10 >= 10 {
        assert |Decimal(n / 10)| == |Decimal(n / 100)| + 1 by {
          assert n / 10 / 10 == n / 100;
        }
      }
    }
  }

  /** The pieces `parts` joined with dots between them. */
  function Dotted(parts: seq<string>): string
    requires |parts| >= 1
  {
    if |parts| == 1 then parts[0] else parts[0] + "." + Dotted(parts[1..])
  }

  /** Go's `IP.String` on a 4-byte address: the four bytes in decimal,
      separated by dots. */
  function FormatIPv4(b: IP): string
    requires |b| == 4
  {
    Dotted([Decimal(b[0]), Decimal(b[1]), Decimal(b[2]), Decimal(b[3])])
  }

  /** The pieces of `s` between dots, in order. */
  function Split(s: string): (parts: seq<string>)
    ensures |parts| >= 1
  {
    if s == [] then [[]]
    else if s[0] == '.' then [[]] + Split(s[1..])
    else var p := Split(s[1..]); [[s[0]] + p[0]] + p[1..]
  }

  /** A piece with no dot is a single part; a piece with no dot followed
      by a dot splits off as the first part. */
  lemma {:induction false} SplitPiece(a: string, rest: string)
    requires NoDot(a)
    ensures Split(a) == [a]
    ensures Split(a + "." + rest) == [a] + Split(rest)
  {
    if a != [] {
      SplitPiece(a[1..], rest);
      assert (a + "." + rest)[1..] == a[1..] + "." + rest;
      assert [a[0]] + a[1..] == a;
    } else {
      assert a + "." + rest == ['.'] + rest;
    }
  }

  /** A dotted-decimal part of an IPv4 address: one to three digits, no
      leading zero, at most 255. */
  predicate IsOctet(p: string)
  {
    && 1 <= |p| <= 3
    && (forall j :: 0 <= j < |p| ==> IsDigit(p[j]))
    && (p[0] == '0' ==> |p| == 1)
    && DigitsValue(p) < 256
  }

  /** The dotted-decimal reading of a text: exactly four octets separated
      by dots, or nothing. */
  function ParseIPv4(s: string): (r: Option<IP>)
    ensures r.Some? ==> |r.value| == 4
  {
    var parts := Split(s);
    if |parts| == 4 && forall j :: 0 <= j < 4 ==> IsOctet(parts[j]) then
      Some(seq(4, j requires 0 <= j < 4 => DigitsValue(parts[j]) as byte))
    else
      None
  }

  predicate NoDot(s: string)
  {
    forall j :: 0 <= j < |s| ==> s[j] != '.'
  }

  /** Each byte's decimal text is a valid octet without a dot. */
  lemma DecimalIsOctet(n: byte)
    ensures IsOctet(Decimal(n)) && NoDot(Decimal(n))
  {
    ByteDigits(n);
  }

  /** Dot-free pieces joined by dots split back into those pieces. */
  lemma {:induction false} SplitDotted(parts: seq<string>)
    requires |parts| >= 1
    requires forall j :: 0 <= j < |parts| ==> NoDot(parts[j])
    ensures Split(Dotted(parts)) == parts
    decreases |parts|
  {
    if |parts| == 1 {
      SplitPiece(parts[0], "");
    } else {
      var rest := parts[1..];
      assert Dotted(parts) == parts[0] + "." + Dotted(rest);
      assert NoDot(parts[0]);
      SplitPiece(parts[0], Dotted(rest));
      forall j | 0 <= j < |rest|
        ensures NoDot(rest[j])
      {
        assert rest[j] == parts[j + 1];
      }
      SplitDotted(rest);
      assert [parts[0]] + rest == parts;
    }
  }

  /** Dotted-decimal text reads back as the address it was made from. */
  lemma FormatParseRoundTrip(b: IP)
    requires |b| == 4
    ensures ParseIPv4(FormatIPv4(b)) == Some(b)
  {
    var d := [Decimal(b[0]), Decimal(b[1]), Decimal(b[2]), Decimal(b[3])];
    forall j | 0 <= j < 4
      ensures IsOctet(d[j]) && NoDot(d[j]) && DigitsValue(d[j]) == b[j]
    {
      DecimalIsOctet(b[j]);
    }
    SplitDotted(d);
    var r := seq(4, j requires 0 <= j < 4 => DigitsValue(d[j]) as byte);
    assert r == b;
  }

  /** Different addresses have different dotted-decimal texts. */
  lemma FormatIPv4Injective(a: IP, b: IP)
    requires |a| == 4 && |b| == 4
    ensures FormatIPv4(a) == FormatIPv4(b) <==> a == b
  {
    if FormatIPv4(a) == FormatIPv4(b) {
      FormatParseRoundTrip(a);
      FormatParseRoundTrip(b);
    }
  }

  // ---------------------------------------------------------------------
  // Selecting the external address

  /** The address of an entry as the type switch extracts it; entries of
      any other type have none. */
  function AddrIP(a: InterfaceAddr): Option<IP>
  {
    match a
    case IPNet(ip, _) => ip
    case IPAddr(ip, _) => ip
    case OtherAddr(_) => None
  }

  /** The IPv4 form of an entry's address when the entry qualifies: it has
      an address, that address is not loopback, and it has an IPv4 form. */
  function Candidate(a: InterfaceAddr): Option<IP>
  {
    match AddrIP(a)
    case None => None
    case Some(ip) => if IsLoopback(ip) then None else To4(ip)
  }

  /** The position of the first qualifying entry of `addrs` at or after
      `from`, in enumeration order. */
  function FirstQualifying(addrs: seq<InterfaceAddr>, from: nat): (r: Option<nat>)
    ensures r.Some? ==> from <= r.value < |addrs| && Candidate(addrs[r.value]).Some?
    ensures forall j :: from <= j < |addrs| && (r.None? || j < r.value) ==> Candidate(addrs[j]).None?
    decreases |addrs| - from
  {
    if from >= |addrs| then None
    else if Candidate(addrs[from]).Some? then Some(from)
    else FirstQualifying(addrs, from + 1)
  }

  /** The body of the selection loop for one entry: take the address the
      type switch finds, give up on a missing or loopback address, then
      take its IPv4 form, which may be missing too. */
  method EntryIPv4(addr: InterfaceAddr) returns (ip: Option<IP>)
    ensures ip == Candidate(addr)
  {
    match addr {
      case IPNet(v, _) => ip := v;
      case IPAddr(v, _) => ip := v;
      case OtherAddr(_) => ip := None;
    }
    assert ip == AddrIP(addr);
    if ip.None? || IsLoopback(ip.value) {
      return None;
    }
    assert Candidate(addr) == To4(ip.value);
    ip := To4(ip.value);
  }

  /** Go's `ExternalIP`, given the outcome of interface enumeration: the
      dotted-decimal text of the first qualifying address and no error;
      the code-95 error when no entry qualifies; the code-96 error when
      enumeration failed. */
  method ExternalIP(e: Enumeration) returns (s: string, err: Option<Error>)
    ensures e.EnumFailure? ==> s == "" && err == Some(EnumerationError(e.reason))
    ensures e.Addrs? && FirstQualifying(e.list, 0).None? ==> s == "" && err == Some(NoNetwork)
    ensures e.Addrs? && FirstQualifying(e.list, 0).Some? ==>
      var n := FirstQualifying(e.list, 0).value;
      s == FormatIPv4(Candidate(e.list[n]).value) && err == None
  {
    if e.EnumFailure? {
      return "", Some(EnumerationError(e.reason));
    }
    var addrs := e.list;
    var n := 0;
    while n < |addrs|
      invariant n <= |addrs|
      invariant forall j :: 0 <= j < n ==> Candidate(addrs[j]).None?
    {
      var ip := EntryIPv4(addrs[n]);
      if ip.Some? {
        FirstFromPrefix(addrs, n);
        return FormatIPv4(ip.value), None;
      }
      n := n + 1;
    }
    FirstFromPrefix(addrs, n);
    return "", Some(NoNetwork);
  }

  /** When no entry before `n` qualifies, the first qualifying entry from
      the start is the first one from `n`. */
  lemma {:induction false} FirstFromPrefix(addrs: seq<InterfaceAddr>, n: nat)
    requires forall j :: 0 <= j < n && j < |addrs| ==> Candidate(addrs[j]).None?
    ensures FirstQualifying(addrs, 0) == FirstQualifying(addrs, n)
    decreases n
  {
    if n > 0 {
      FirstFromPrefix(addrs, n - 1);
    }
  }

  /** The selected address is never a loopback address: it is four bytes
      whose first is not 127, and the entry's own address was neither in
      127.0.0.0/8, mapped or not, nor ::1. */
  lemma CandidateNotLoopback(a: InterfaceAddr)
    requires Candidate(a).Some?
    ensures var x := Candidate(a).value;
      && |x| == 4 && x[0] != 127 && !IsLoopback(x)
      && AddrIP(a).Some? && AddrIP(a).value != IPv6Loopback
  {
    var ip := AddrIP(a).value;
    LoopbackIff(ip);
  }

  /** On success the result is the dotted-decimal text of four bytes that
      are not a loopback address and that read back from it. */
  lemma ExternalIPText(list: seq<InterfaceAddr>)
    requires FirstQualifying(list, 0).Some?
    ensures var x := Candidate(list[FirstQualifying(list, 0).value]).value;
      && |x| == 4 && !IsLoopback(x)
      && ParseIPv4(FormatIPv4(x)) == Some(x)
  {
    var a := list[FirstQualifying(list, 0).value];
    CandidateNotLoopback(a);
    FormatParseRoundTrip(Candidate(a).value);
  }

  /** Entries of another type, entries without an address and 16-byte
      addresses that are not IPv4-mapped are skipped; an IPv4-mapped
      address outside 127.0.0.0/8 is reduced to its four IPv4 bytes. */
  lemma CandidateCases(b: IP, mask: seq<byte>, zone: string, network: string, v6: IP)
    requires |b| == 4 && b[0] != 127
    requires |v6| == 16 && v6[..12] != V4InV6Prefix
    ensures Candidate(OtherAddr(network)) == None
    ensures Candidate(IPNet(None, mask)) == None && Candidate(IPAddr(None, zone)) == None
    ensures Candidate(IPNet(Some(v6), mask)) == None && Candidate(IPAddr(Some(v6), zone)) == None
    ensures Candidate(IPNet(Some(V4InV6Prefix + b), mask)) == Some(b)
    ensures Candidate(IPAddr(Some(b), zone)) == Some(b)
  {
    To4MappedRoundTrip(b);
  }
}
