/**
 * The MotomanHardware system interface of ros2_control: its lifecycle
 * (configure, start, stop, read, write) and the per-joint buffers it hands
 * out to the controller manager as state and command interfaces.
 *
 * A `double` in a buffer matters here only through whether it is NaN, the
 * plugin's marker for "not yet known"; every other value is only copied or
 * set to zero. The buffers are arrays, and an exported interface carries the
 * array and the slot it points into, as the source's `&positions_[i]` does.
 */
module MotomanHardware {
  import opened Wrappers

  /** The interface names hardware_interface defines (HW_IF_POSITION, HW_IF_VELOCITY) */
  const HwIfPosition: string := "position"
  const HwIfVelocity: string := "velocity"

  datatype ReturnType = Ok | Error

  /** hardware_interface::status */
  datatype Status = Unknown | Configured | Started | Stopped

  /** A buffer value: NaN, or a number */
  datatype Double = NaN | Num(value: real)

  /** A joint as the URDF declares it: its name and the names of its interfaces */
  datatype ComponentInfo = ComponentInfo(name: string, commandInterfaces: seq<string>, stateInterfaces: seq<string>)

  datatype HardwareInfo = HardwareInfo(joints: seq<ComponentInfo>)

  /** The hardware parameters configure reads, already converted to numbers */
  datatype Parameters = Parameters(startSec: real, stopSec: real, slowdown: real,
                                   udpIpAddress: string, udpPort: int)

  /** A handle through which the controller manager reads one buffer slot */
  datatype StateInterface = StateInterface(name: string, interfaceName: string, buffer: array<Double>, slot: nat)

  /** A handle through which the controller manager writes one buffer slot */
  datatype CommandInterface = CommandInterface(name: string, interfaceName: string, buffer: array<Double>, slot: nat)

  // ---------------------------------------------------------------------
  // Joint interface validation
  // ---------------------------------------------------------------------

  /** The checks configure makes of each joint, in the order it makes them */
  datatype Violation =
    | CommandInterfaceCount   // not exactly one command interface
    | CommandInterfaceName    // the command interface is not velocity
    | StateInterfaceCount     // not exactly two state interfaces
    | PositionStateName       // the first state interface is not position
    | VelocityStateName       // the second state interface is not velocity

  /** The joint and the check of the fatal log message configure emits */
  datatype Mismatch = Mismatch(joint: nat, violation: Violation)

  /**
   * The first check a joint fails. Each list's size is checked before it is
   * indexed. A joint passes exactly when it declares one velocity command
   * interface and the state interfaces position and velocity, in that order.
   */
  function JointCheck(j: ComponentInfo): (r: Option<Violation>)
    ensures r.None? <==>
      j.commandInterfaces == [HwIfVelocity] && j.stateInterfaces == [HwIfPosition, HwIfVelocity]
  {
    if |j.commandInterfaces| != 1 then Some(CommandInterfaceCount)
    else if j.commandInterfaces[0] != HwIfVelocity then Some(CommandInterfaceName)
    else if |j.stateInterfaces| != 2 then Some(StateInterfaceCount)
    else if j.stateInterfaces[0] != HwIfPosition then Some(PositionStateName)
    else if j.stateInterfaces[1] != HwIfVelocity then Some(VelocityStateName)
    else None
  }

  /** The first joint, in list order, that fails a check, and the check */
  function FirstMismatch(js: seq<ComponentInfo>): Option<Mismatch>
  {
    if js == [] then None
    else match JointCheck(js[0])
      case Some(v) => Some(Mismatch(0, v))
      case None =>
        match FirstMismatch(js[1..])
        case None => None
        case Some(m) => Some(Mismatch(m.joint + 1, m.violation))
  }

  /** Validation passes exactly when every joint passes */
  lemma {:induction false} FirstMismatchNone(js: seq<ComponentInfo>)
    ensures FirstMismatch(js).None? <==> forall i :: 0 <= i < |js| ==> JointCheck(js[i]).None?
  {
    if js != [] {
      FirstMismatchNone(js[1..]);
      assert forall i :: 1 <= i < |js| ==> js[i] == js[1..][i - 1];
    }
  }

  /** Validation reports joint k and check v exactly when k fails v and every earlier joint passes */
  lemma {:induction false} FirstMismatchSome(js: seq<ComponentInfo>, k: nat, v: Violation)
    ensures FirstMismatch(js) == Some(Mismatch(k, v)) <==>
      k < |js| && JointCheck(js[k]) == Some(v) && forall i :: 0 <= i < k ==> JointCheck(js[i]).None?
  {
    if js != [] && k > 0 {
      FirstMismatchSome(js[1..], k - 1, v);
      assert forall i :: 1 <= i < |js| ==> js[i] == js[1..][i - 1];
    }
  }

  /** Joints after the first failing one are never examined */
  lemma {:induction false} LaterJointsNotExamined(js: seq<ComponentInfo>, other: seq<ComponentInfo>, k: nat, v: Violation)
    requires FirstMismatch(js) == Some(Mismatch(k, v))
    requires k < |js| && k < |other| && other[..k + 1] == js[..k + 1]
    ensures FirstMismatch(other) == Some(Mismatch(k, v))
  {
    FirstMismatchSome(js, k, v);
    forall i | 0 <= i <= k
      ensures other[i] == js[i]
    {
      assert other[i] == other[..k + 1][i];
      assert js[i] == js[..k + 1][i];
    }
    FirstMismatchSome(other, k, v);
  }

  /** The state interfaces are checked in order: [position, velocity] passes, [velocity, position] does not */
  lemma StateInterfaceOrderMatters(name: string)
    ensures JointCheck(ComponentInfo(name, [HwIfVelocity], [HwIfPosition, HwIfVelocity])).None?
    ensures JointCheck(ComponentInfo(name, [HwIfVelocity], [HwIfVelocity, HwIfPosition])) == Some(PositionStateName)
  {
  }

  /**
   * The validation block of configure: the joints in list order, each check
   * in turn, returning ERROR at the first failure. The mismatch out-parameter
   * stands for the fatal log message that names the joint and the check.
   */
  method ValidateJoints(joints: seq<ComponentInfo>) returns (r: ReturnType, mismatch: Option<Mismatch>)
    ensures mismatch == FirstMismatch(joints)
    ensures r == Ok <==> mismatch.None?
  {
    for i := 0 to |joints|
      invariant forall k :: 0 <= k < i ==> JointCheck(joints[k]).None?
    {
      var joint := joints[i];
      var failed: Option<Violation> := None;
      if |joint.commandInterfaces| != 1 {
        failed := Some(CommandInterfaceCount);
      } else if joint.commandInterfaces[0] != HwIfVelocity {
        failed := Some(CommandInterfaceName);
      } else if |joint.stateInterfaces| != 2 {
        failed := Some(StateInterfaceCount);
      } else if joint.stateInterfaces[0] != HwIfPosition {
        failed := Some(PositionStateName);
      } else if joint.stateInterfaces[1] != HwIfVelocity {
        failed := Some(VelocityStateName);
      }
      if failed.Some? {
        FirstMismatchSome(joints, i, failed.value);
        return Error, Some(Mismatch(i, failed.value));
      }
    }
    FirstMismatchNone(joints);
    return Ok, None;
  }

  // ---------------------------------------------------------------------
  // Buffer contents
  // ---------------------------------------------------------------------

  /** n buffer slots that all hold NaN */
  function Unknowns(n: nat): (r: seq<Double>)
    ensures |r| == n
  {
    seq(n, _ => NaN)
  }

  /**
   * A buffer after start: every slot whose position is NaN becomes zero,
   * every other slot keeps its value.
   */
  function Defaulted(positions: seq<Double>, buffer: seq<Double>): (r: seq<Double>)
    requires |positions| == |buffer|
    ensures |r| == |buffer|
  {
    seq(|buffer|, i requires 0 <= i < |buffer| => if positions[i] == NaN then Num(0.0) else buffer[i])
  }

  /** After start no position is NaN, and a slot whose position was known keeps all three values */
  lemma StartDefaults(p: seq<Double>, v: seq<Double>, c: seq<Double>)
    requires |p| == |v| == |c|
    ensures forall i :: 0 <= i < |p| ==> Defaulted(p, p)[i] != NaN
    ensures forall i :: 0 <= i < |p| && p[i] != NaN ==>
      Defaulted(p, p)[i] == p[i] && Defaulted(p, v)[i] == v[i] && Defaulted(p, c)[i] == c[i]
    ensures forall i :: 0 <= i < |p| && p[i] == NaN ==>
      Defaulted(p, p)[i] == Defaulted(p, v)[i] == Defaulted(p, c)[i] == Num(0.0)
  {
  }

  /** A second start changes nothing */
  lemma StartIdempotent(p: seq<Double>, b: seq<Double>)
    requires |p| == |b|
    ensures Defaulted(Defaulted(p, p), Defaulted(p, b)) == Defaulted(p, b)
  {
  }

  /** Right after configure, start sets every slot of every buffer to zero */
  lemma ConfigureThenStart(n: nat)
    ensures Defaulted(Unknowns(n), Unknowns(n)) == seq(n, _ => Num(0.0))
  {
  }

  /** std::vector::resize: the first slots are kept, new slots hold 0.0 */
  method Resize(a: array<Double>, n: nat) returns (b: array<Double>)
    ensures fresh(b) && b.Length == n
    ensures forall i :: 0 <= i < n ==> b[i] == if i < a.Length then a[i] else Num(0.0)
  {
    var kept := a[..];
    b := new Double[n](i => if 0 <= i < |kept| then kept[i] else Num(0.0));
  }

  /**
   * The initialisation block of configure: the three buffers resized to one
   * slot per joint, then every slot set to NaN.
   */
  method ResetBuffers(positions: array<Double>, velocities: array<Double>, commands: array<Double>, n: nat)
    returns (p: array<Double>, v: array<Double>, c: array<Double>)
    ensures fresh(p) && fresh(v) && fresh(c) && p != v && p != c && v != c
    ensures p[..] == Unknowns(n) && v[..] == Unknowns(n) && c[..] == Unknowns(n)
  {
    p := Resize(positions, n);
    v := Resize(velocities, n);
    c := Resize(commands, n);
    for i := 0 to n
      invariant forall k :: 0 <= k < i ==> p[k] == NaN && v[k] == NaN && c[k] == NaN
    {
      p[i] := NaN;
      v[i] := NaN;
      c[i] := NaN;
    }
  }

  // ---------------------------------------------------------------------
  // The plugin
  // ---------------------------------------------------------------------

  class MotomanHardware {
    /** info_.joints: the joints configure was given */
    var joints: seq<ComponentInfo>
    /** positions_, velocities_, commands_: one slot per joint */
    var positions: array<Double>
    var velocities: array<Double>
    var commands: array<Double>
    /** status_ */
    var status: Status
    /** hw_start_sec_, hw_stop_sec_, hw_slowdown_ */
    var hwStartSec: real
    var hwStopSec: real
    var hwSlowdown: real
    /** udp_ip_address_, udp_port_ */
    var udpIpAddress: string
    var udpPort: int

    /** Slot i of every buffer belongs to joint i; the three buffers are distinct */
    ghost predicate Valid()
      reads this
    {
      positions.Length == |joints| && velocities.Length == |joints| && commands.Length == |joints| &&
      positions != velocities && positions != commands && velocities != commands
    }

    constructor ()
      ensures Valid() && joints == [] && status == Unknown
    {
      joints := [];
      positions := new Double[0];
      velocities := new Double[0];
      commands := new Double[0];
      status := Unknown;
      hwStartSec, hwStopSec, hwSlowdown := 0.0, 0.0, 0.0;
      udpIpAddress, udpPort := "", 0;
    }

    /**
     * configure. `defaultOk` is the result of the library's
     * configure_default, which stores `info` as info_. The buffers are
     * resized and reset to NaN before the joints are validated, so a
     * validation failure leaves them reset; only success sets the status.
     */
    method Configure(info: HardwareInfo, defaultOk: bool, params: Parameters) returns (r: ReturnType)
      requires Valid()
      modifies this
      ensures Valid()
      ensures !defaultOk ==> r == Error && unchanged(this)
      ensures defaultOk ==> joints == info.joints
      ensures defaultOk ==> hwStartSec == params.startSec && hwStopSec == params.stopSec && hwSlowdown == params.slowdown
      ensures defaultOk ==> fresh(positions) && fresh(velocities) && fresh(commands)
      ensures defaultOk ==> positions[..] == Unknowns(|joints|) && velocities[..] == Unknowns(|joints|) &&
                            commands[..] == Unknowns(|joints|)
      ensures defaultOk ==> (r == Ok <==> FirstMismatch(info.joints).None?)
      ensures r == Ok ==> status == Configured && udpIpAddress == params.udpIpAddress && udpPort == params.udpPort
      ensures r == Error ==> status == old(status) && udpIpAddress == old(udpIpAddress) && udpPort == old(udpPort)
    {
      if !defaultOk {
        return Error;
      }
      joints := info.joints;

      hwStartSec := params.startSec;
      hwStopSec := params.stopSec;
      hwSlowdown := params.slowdown;

      positions, velocities, commands := ResetBuffers(positions, velocities, commands, |joints|);
      assert Valid();

      var mismatch;
      r, mismatch := ValidateJoints(joints);
      if r == Error {
        return;
      }

      Bind(params);
      r := Ok;
    }

    /** The tail of configure once validation passes: bind the UDP address, then CONFIGURED */
    method Bind(params: Parameters)
      modifies this`udpIpAddress, this`udpPort, this`status
      ensures udpIpAddress == params.udpIpAddress && udpPort == params.udpPort && status == Configured
    {
      udpIpAddress := params.udpIpAddress;
      udpPort := params.udpPort;
      status := Configured;
    }

    /** export_state_interfaces: joint i's position and velocity, in joint order */
    method ExportStateInterfaces() returns (handles: seq<StateInterface>)
      requires Valid()
      ensures |handles| == 2 * |joints|
      ensures forall i :: 0 <= i < |joints| ==>
        handles[2 * i] == StateInterface(joints[i].name, HwIfPosition, positions, i) &&
        handles[2 * i + 1] == StateInterface(joints[i].name, HwIfVelocity, velocities, i)
      ensures forall h :: h in handles ==> h.slot < h.buffer.Length
    {
      handles := [];
      for i := 0 to |joints|
        invariant |handles| == 2 * i
        invariant forall k :: 0 <= k < i ==>
          handles[2 * k] == StateInterface(joints[k].name, HwIfPosition, positions, k) &&
          handles[2 * k + 1] == StateInterface(joints[k].name, HwIfVelocity, velocities, k)
        invariant forall h :: h in handles ==> h.slot < h.buffer.Length
      {
        handles := handles + [StateInterface(joints[i].name, HwIfPosition, positions, i)];
        handles := handles + [StateInterface(joints[i].name, HwIfVelocity, velocities, i)];
      }
    }

    /** export_command_interfaces: joint i's velocity command, in joint order */
    method ExportCommandInterfaces() returns (handles: seq<CommandInterface>)
      requires Valid()
      ensures |handles| == |joints|
      ensures forall i :: 0 <= i < |joints| ==>
        handles[i] == CommandInterface(joints[i].name, HwIfVelocity, commands, i)
    {
      handles := [];
      for i := 0 to |joints|
        invariant |handles| == i
        invariant forall k :: 0 <= k < i ==> handles[k] == CommandInterface(joints[k].name, HwIfVelocity, commands, k)
      {
        handles := handles + [CommandInterface(joints[i].name, HwIfVelocity, commands, i)];
      }
    }

    /**
     * start: every joint whose position is still NaN gets zero position,
     * velocity and command; the test looks at the position only.
     */
    method Start() returns (r: ReturnType)
      requires Valid()
      modifies this`status, positions, velocities, commands
      ensures Valid()
      ensures r == Ok && status == Started
      ensures positions[..] == Defaulted(old(positions[..]), old(positions[..]))
      ensures velocities[..] == Defaulted(old(positions[..]), old(velocities[..]))
      ensures commands[..] == Defaulted(old(positions[..]), old(commands[..]))
    {
      for i := 0 to positions.Length
        invariant forall k :: 0 <= k < i ==>
          positions[k] == Defaulted(old(positions[..]), old(positions[..]))[k] &&
          velocities[k] == Defaulted(old(positions[..]), old(velocities[..]))[k] &&
          commands[k] == Defaulted(old(positions[..]), old(commands[..]))[k]
        invariant forall k :: i <= k < positions.Length ==>
          positions[k] == old(positions[k]) && velocities[k] == old(velocities[k]) &&
          commands[k] == old(commands[k])
      {
        if positions[i] == NaN {
          positions[i] := Num(0.0);
          velocities[i] := Num(0.0);
          commands[i] := Num(0.0);
        }
      }
      status := Started;
      r := Ok;
    }

    /** stop: whatever the status was, it becomes STOPPED; no buffer changes */
    method Stop() returns (r: ReturnType)
      modifies this`status
      ensures r == Ok && status == Stopped
    {
      status := Stopped;
      r := Ok;
    }

    /** read: changes nothing, whatever the status */
    method Read() returns (r: ReturnType)
      ensures r == Ok
    {
      r := Ok;
    }

    /** write: changes nothing, whatever the status */
    method Write() returns (r: ReturnType)
      ensures r == Ok
    {
      r := Ok;
    }
  }
}
