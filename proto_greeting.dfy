/** proto/greeting.ts: the 64-byte greeting, its builder, and its getters. */
module ProtoGreeting {
  import opened Bytes
  import Text

  const SIZE: nat := 64

  /** Bytes 0-9 as `build` writes them: 0xFF, zero padding, 0x01, 0x7F. */
  const SIGNATURE: seq<byte> := [0xFF, 0, 0, 0, 0, 0, 0, 0, 0x01, 0x7F]

  datatype SecurityMechanism = NULL | PLAIN | CURVE
  {
    function Name(): string
    {
      match this
      case NULL => "NULL"
      case PLAIN => "PLAIN"
      case CURVE => "CURVE"
    }
  }

  function Zeros(n: nat): (z: seq<byte>)
    ensures |z| == n && forall i :: 0 <= i < n ==> z[i] == 0
  {
    seq(n, _ => 0)
  }

  /** The mechanism field as `build` fills it: the UTF-8 name, cut to five
      bytes when it is longer. */
  function MechanismField(m: SecurityMechanism): (f: seq<byte>)
    ensures |f| <= 5
  {
    var enc := Text.Encode(m.Name());
    if |enc| < 6 then enc else enc[..5]
  }

  /**
   * The greeting layout: the signature, the two version bytes, the mechanism
   * name padded with zeros to 20 bytes, the as-server byte, 31 bytes of
   * filler.
   */
  function GreetingBytes(major: int, minor: int, name: seq<byte>, asServer: bool): seq<byte>
    requires |name| <= 20
  {
    SIGNATURE + [major % 256, minor % 256] + name + Zeros(20 - |name|)
      + [if asServer then 1 else 0] + Zeros(31)
  }

  /** Bytes `e..17` are zero: the name ends before byte `e`. */
  ghost predicate ZerosFrom(body: seq<byte>, e: nat)
    requires |body| >= 17
  {
    forall j :: e <= j < 17 ==> body[j] == 0
  }

  /** A received or built greeting. */
  datatype Greeting = Greeting(body: seq<byte>)
  {
    predicate Valid()
    {
      |body| == SIZE
    }

    function Bytes(): seq<byte>
    {
      body
    }

    /** `signature`: the first ten bytes (fewer if the body is shorter). */
    function Signature(): (s: seq<byte>)
      ensures |s| == if |body| < 10 then |body| else 10
      ensures s <= body
    {
      if |body| < 10 then body else body[..10]
    }

    function Version(): (v: (byte, byte))
      requires Valid()
    {
      (body[10], body[11])
    }

    predicate AsServer()
      requires Valid()
    {
      body[32] == 0x01
    }

    /**
     * `mechism`: the bytes from 12 up to the last non-zero byte among 12-16,
     * through the ASCII decoder.
     */
    method Mechism() returns (s: string)
      requires Valid()
      ensures 12 + |s| <= 17
      ensures s == Text.AsciiDecode(body[12..12 + |s|])
      ensures ZerosFrom(body, 12 + |s|)
      ensures |s| == 0 || body[12 + |s| - 1] != 0
    {
      var end := 17;
      var i := 1;
      while i <= 5 && body[17 - i] == 0
        invariant 1 <= i <= 6 && end == 18 - i
        invariant ZerosFrom(body, end)
      {
        end := end - 1;
        i := i + 1;
      }
      s := Text.AsciiDecode(body[12..end]);
    }
  }

  /** `GreetingBuilder`: version 3.0, NULL, not a server, until changed. */
  class GreetingBuilder {
    var major: int
    var minor: int
    var mechanism: SecurityMechanism
    var asServer: bool

    constructor ()
      ensures major == 3 && minor == 0 && mechanism == NULL && !asServer
    {
      major := 3;
      minor := 0;
      mechanism := NULL;
      asServer := false;
    }

    method Version(major: int, minor: int)
      modifies this
      ensures this.major == major && this.minor == minor
      ensures mechanism == old(mechanism) && asServer == old(asServer)
    {
      this.major := major;
      this.minor := minor;
    }

    /** `mechanism(m)` assigns the field to itself: the argument is ignored. */
    method Mechanism(m: SecurityMechanism)
      modifies this
      ensures major == old(major) && minor == old(minor)
      ensures mechanism == old(mechanism) && asServer == old(asServer)
    {
      mechanism := mechanism;
    }

    method AsServer(asServer: bool)
      modifies this
      ensures this.asServer == asServer
      ensures major == old(major) && minor == old(minor) && mechanism == old(mechanism)
    {
      this.asServer := asServer;
    }

    /** `build`: a zeroed 64-byte array with the fields stored at their
        offsets. */
    method Build() returns (g: Greeting)
      ensures g.Valid()
      ensures g.body == GreetingBytes(major, minor, MechanismField(mechanism), asServer)
    {
      var b := new byte[SIZE](_ => 0);
      assert b[..] == Zeros(SIZE);
      b[0] := 0xFF;
      b[8] := 0x01;
      b[9] := 0x7F;
      b[10] := major % 256;
      b[11] := minor % 256;
      ghost var fixed := b[..];
      var name := MechanismField(mechanism);
      forall i | 0 <= i < |name| {
        b[12 + i] := name[i];
      }
      ghost var named := b[..];
      assert named == fixed[..12] + name + fixed[12 + |name|..];
      if asServer {
        b[32] := 0x01;
      }
      g := Greeting(b[..]);
      assert g.body == named[32 := if asServer then 1 else 0];
      Layout(fixed, named, g.body, major, minor, name, asServer);
    }
  }

  /** The three stages of `build` (the fixed bytes, the name copied in at 12,
      the as-server byte) produce the greeting layout. */
  lemma {:induction false} Layout(fixed: seq<byte>, named: seq<byte>, s: seq<byte>,
                                  major: int, minor: int, name: seq<byte>, asServer: bool)
    requires |name| <= 5
    requires fixed == Zeros(SIZE)[0 := 0xFF][8 := 0x01][9 := 0x7F][10 := major % 256][11 := minor % 256]
    requires named == fixed[..12] + name + fixed[12 + |name|..]
    requires s == named[32 := if asServer then 1 else 0]
    ensures s == GreetingBytes(major, minor, name, asServer)
  {
    var flag: byte := if asServer then 1 else 0;
    var k := 12 + |name|;
    assert fixed[..10] == SIGNATURE;
    assert fixed[10..12] == [major % 256, minor % 256];
    assert forall j :: 12 <= j < SIZE ==> fixed[j] == 0;
    assert forall j :: k <= j < SIZE && j != 32 ==> s[j] == fixed[j];
    assert s[..10] == SIGNATURE;
    assert s[10..12] == [major % 256, minor % 256];
    assert s[12..k] == name;
    assert s[k..32] == Zeros(20 - |name|);
    assert s[32..33] == [flag];
    assert s[33..] == Zeros(31);
    assert s == s[..10] + s[10..12] + s[12..k] + s[k..32] + s[32..33] + s[33..];
  }

  /** Where each field of the layout sits. */
  lemma {:induction false} LayoutIndices(major: int, minor: int, name: seq<byte>, asServer: bool)
    requires |name| <= 5
    ensures var b := GreetingBytes(major, minor, name, asServer);
      && |b| == SIZE
      && b[..10] == SIGNATURE
      && b[10] == major % 256 && b[11] == minor % 256
      && b[12..12 + |name|] == name
      && (forall i :: 12 + |name| <= i < 32 ==> b[i] == 0)
      && b[32] == (if asServer then 1 else 0)
      && (forall i :: 33 <= i < SIZE ==> b[i] == 0)
  {
  }

  /** Each mechanism name is ASCII without a zero byte, so the field is the
      name's own codes and fits without being cut. */
  lemma MechanismFieldBytes(m: SecurityMechanism)
    ensures var f := MechanismField(m);
      && f == Text.Encode(m.Name())
      && 4 <= |f| == |m.Name()| <= 5
      && (forall i :: 0 <= i < |f| ==> f[i] != 0)
      && Text.AsciiDecode(f) == m.Name()
  {
    match m
    case NULL => NameBytes("NULL", [0x4E, 0x55, 0x4C, 0x4C]);
    case PLAIN => NameBytes("PLAIN", [0x50, 0x4C, 0x41, 0x49, 0x4E]);
    case CURVE => NameBytes("CURVE", [0x43, 0x55, 0x52, 0x56, 0x45]);
  }

  /** A name of at most five ASCII letters encodes to its own codes. */
  lemma {:induction false} NameBytes(name: string, codes: seq<byte>)
    requires |name| == |codes| <= 5
    requires forall i :: 0 <= i < |name| ==> 0 < codes[i] < 0x80 && name[i] as int == codes[i]
    ensures Text.Encode(name) == codes
    ensures Text.AsciiDecode(codes) == name
  {
    if name != [] {
      NameBytes(name[1..], codes[1..]);
      assert codes == [codes[0]] + codes[1..];
    }
  }

  /** The getters read back what the layout stores: the signature, the
      version bytes, the as-server flag, and a name field ending at its last
      non-zero byte. */
  lemma {:induction false} GettersOfLayout(major: int, minor: int, name: seq<byte>, asServer: bool)
    requires |name| <= 5
    ensures var g := Greeting(GreetingBytes(major, minor, name, asServer));
      && g.Valid()
      && g.Signature() == SIGNATURE
      && g.Version() == (major % 256, minor % 256)
      && (g.AsServer() <==> asServer)
      && g.body[12..12 + |name|] == name
      && ZerosFrom(g.body, 12 + |name|)
  {
    LayoutIndices(major, minor, name, asServer);
  }

  /** The end `mechism` stops at is unique: at most one position has only
      zeros after it up to 17 and a non-zero byte (or the field start) before. */
  lemma {:induction false} MechanismEndUnique(body: seq<byte>, e1: nat, e2: nat)
    requires |body| == SIZE && 12 <= e1 <= 17 && 12 <= e2 <= 17
    requires ZerosFrom(body, e1) && (e1 == 12 || body[e1 - 1] != 0)
    requires ZerosFrom(body, e2) && (e2 == 12 || body[e2 - 1] != 0)
    ensures e1 == e2
  {
  }

  /** `mechism` of a greeting laid out with mechanism `m` is `m`'s name. */
  method MechismOfLayout(major: int, minor: int, m: SecurityMechanism, asServer: bool) returns (s: string)
    ensures s == m.Name()
  {
    var name := MechanismField(m);
    MechanismFieldBytes(m);
    GettersOfLayout(major, minor, name, asServer);
    var g := Greeting(GreetingBytes(major, minor, name, asServer));
    s := g.Mechism();
    MechanismEndUnique(g.body, 12 + |s|, 12 + |name|);
  }

  /**
   * A builder given a version, a mechanism and the server flag: the greeting
   * carries the version bytes and the flag, but its mechanism is still NULL,
   * because the `mechanism` setter keeps the old value.
   */
  method BuildWith(major: int, minor: int, m: SecurityMechanism, asServer: bool)
    returns (g: Greeting, mechism: string)
    ensures g.Valid() && g.Signature() == SIGNATURE
    ensures g.Version() == (major % 256, minor % 256)
    ensures g.AsServer() <==> asServer
    ensures mechism == "NULL"
  {
    var builder := new GreetingBuilder();
    builder.Version(major, minor);
    builder.Mechanism(m);
    builder.AsServer(asServer);
    g := builder.Build();
    var name := MechanismField(NULL);
    MechanismFieldBytes(NULL);
    GettersOfLayout(major, minor, name, asServer);
    mechism := g.Mechism();
    MechanismEndUnique(g.body, 12 + |mechism|, 12 + |name|);
  }
}
