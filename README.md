# motoman_hardware in Dafny

This project models the core of `motoman_hardware`, a ros2_control system plugin that connects a Yaskawa Motoman controller (MotoROS) to the ros2_control controller manager. It has two parts.

- **`MotomanHardware`** (`motoman_hardware.dfy`) is the plugin class. `Configure` stores the joint list and the parameters. It resizes the position, velocity and command buffers to one slot per joint and sets every slot to NaN ("not yet known"). It then validates each joint's interface declarations in list order and stops at the first failing check. `ExportStateInterfaces` and `ExportCommandInterfaces` hand out handles that point joint *i* at slot *i* of a buffer. `Start` sets every joint whose position is still NaN to zero in all three buffers. `Start` and `Stop` set the status. `Read` and `Write` change nothing. The buffers are `array<Double>`, where `Double` is `NaN | Num(real)`. A handle carries the array and the slot it points into, as the C++ handle carries `&positions_[i]`.
- **`SimpleMessageCodec`** (`simple_message.dfy`) is the packed MotoROS "simple message" for real-time joint state feedback (type 2030) and joint commands (type 2031). The body is a tagged datatype with one constructor per union member. Each field is one 32-bit word:
  - `int` and enum fields are signed 32-bit values, stored in two's complement;
  - `float` fields are opaque words that the codec only moves.

  `MessageImage` lays a message out as the 91 words of the packed struct. `Encode` turns those words into 364 little-endian bytes. `Decode` reads them back. It rejects input shorter than the struct and enumeration codes that name no enumerator. The lemmas prove:
  - both round trips;
  - every field offset of both variants;
  - that the message id sits at byte 16 in both variants, so a command's echo of a joint state's id can be checked on the raw bytes.

## Model

| member | source | states |
|---|---|---|
| `SimpleMessageCodec.MsgTypeOf` | include/motoman_hardware/simple_message.hpp:30-34 | a code names a message type exactly when it is 2030 or 2031, and the type found has that code |
| `SimpleMessageCodec.CommTypeOf` | include/motoman_hardware/simple_message.hpp:36-42 | a code names a communication type exactly when it is 0 to 3, and the type found has that code |
| `SimpleMessageCodec.ReplyTypeOf` | include/motoman_hardware/simple_message.hpp:44-49 | a code names a reply type exactly when it is 0 to 2, and the type found has that code |
| `SimpleMessageCodec.ModeOf` | include/motoman_hardware/simple_message.hpp:58-63 | a code names a motion mode exactly when it is 0 to 2, and the mode found has that code |
| `SimpleMessageCodec.EnumCodesRoundTrip` | include/motoman_hardware/simple_message.hpp:30-63 | every enumerator's code, as `MsgTypeCode`, `CommTypeCode`, `ReplyTypeCode` and `ModeCode` give the declared values, reads back as that enumerator |
| `SimpleMessageCodec.IntWord` | include/motoman_hardware/simple_message.hpp:27 | a signed 32-bit field is stored as the word congruent to it modulo 2^32, below 2^31 exactly for non-negative values |
| `SimpleMessageCodec.WordInt` | include/motoman_hardware/simple_message.hpp:27 | every 32-bit word reads as the signed value whose stored word it is |
| `SimpleMessageCodec.StateDataOf` | include/motoman_hardware/simple_message.hpp:65-70 | any 21 words (84 bytes) read as a group with exactly 10 positions and 10 velocities whose image is those words |
| `SimpleMessageCodec.CommandDataOf` | include/motoman_hardware/simple_message.hpp:80-84 | any 11 words (44 bytes) read as a group with exactly 10 commands whose image is those words |
| `SimpleMessageCodec.StateDataImage` | include/motoman_hardware/simple_message.hpp:65-70 | a joint-state group occupies 84 bytes |
| `SimpleMessageCodec.CommandDataImage` | include/motoman_hardware/simple_message.hpp:80-84 | a joint-command group occupies 44 bytes |
| `SimpleMessageCodec.BodyImage` | include/motoman_hardware/simple_message.hpp:93-97 | the union occupies 348 bytes in both variants; the joint-state member fills all 348 bytes; after a joint-command body (184 bytes) the rest is zero |
| `SimpleMessageCodec.HeaderImage` | include/motoman_hardware/simple_message.hpp:51-56 | the header is three words, 12 bytes: message type, communication type, reply type, in declaration order (positions proved by `HeaderOffsets`) |
| `SimpleMessageCodec.MessageImage` | include/motoman_hardware/simple_message.hpp:99-104 | prefix, header and body occupy 4 + 12 + 348 bytes, 91 words |
| `SimpleMessageCodec.Encode` | include/motoman_hardware/simple_message.hpp:20-106 | every well-formed message encodes to exactly 364 bytes, whatever its variant |
| `SimpleMessageCodec.BodyOf` | include/motoman_hardware/simple_message.hpp:93-97 | a body is read as the variant the message type announces, with 4 groups of 10 joints; it fails, with UnknownMotionMode, exactly when it is a joint state whose mode code names no mode |
| `SimpleMessageCodec.MessageOf` | include/motoman_hardware/simple_message.hpp:51-63 | a decoded message is well-formed. A message is rejected exactly when its message, communication or reply type code names no enumerator, or it is a joint state with an unknown mode. The first of the header codes that fails, in that order, is the one reported |
| `SimpleMessageCodec.DecodeRejects` | include/motoman_hardware/simple_message.hpp:51-78 | a buffer of at least 364 bytes is rejected exactly when the code at byte 4, 8 or 12 names no enumerator, or byte 4 says joint state and the code at byte 20 names no mode |
| `SimpleMessageCodec.Decode` | include/motoman_hardware/simple_message.hpp:99-104 | input shorter than 364 bytes, and only such input, is rejected as truncated; what decodes fits the fixed capacities |
| `SimpleMessageCodec.MessageRoundTrip` | include/motoman_hardware/simple_message.hpp:99-104 | reading the word image of a well-formed message gives the message back |
| `SimpleMessageCodec.DecodeEncode` | include/motoman_hardware/simple_message.hpp:20-106 | decode(encode(m)) == m for every message whose arrays have the declared capacities and whose header announces its body |
| `SimpleMessageCodec.EncodeDecode` | include/motoman_hardware/simple_message.hpp:20-106 | a decoded joint-state message encodes back to the 364 bytes it was read from, and a joint-command message to the first 200 of them |
| `SimpleMessageCodec.HeaderOffsets` | include/motoman_hardware/simple_message.hpp:25-56 | length at byte 0, message type at 4, communication type at 8, reply type at 12, message id at 16 in both variants |
| `SimpleMessageCodec.StateOffsets` | include/motoman_hardware/simple_message.hpp:65-78 | joint-state body: mode at 20, group count at 24, group g at 28 + 84g, its position j at 32 + 84g + 4j and velocity j at 72 + 84g + 4j |
| `SimpleMessageCodec.CommandOffsets` | include/motoman_hardware/simple_message.hpp:80-91 | joint-command body: group count at 20, group g at 24 + 44g, its command j at 28 + 44g + 4j |
| `SimpleMessageCodec.MessageIdOf` | include/motoman_hardware/simple_message.hpp:74 | the message id can be read from any buffer of at least 20 bytes without knowing the variant |
| `SimpleMessageCodec.MessageIdOnTheWire` | include/motoman_hardware/simple_message.hpp:72-91 | every decoded message, of either variant, carries its message id at byte 16 |
| `SimpleMessageCodec.EchoOnTheWire` | include/motoman_hardware/simple_message.hpp:86-91 | a command answers a joint state (echoes its message id) exactly when bytes 16 to 19 of the two images agree |
| `MotomanHardware.JointCheck` | src/motoman_hardware.cpp:52-86 | a joint passes exactly when its command interfaces are [velocity] and its state interfaces are [position, velocity], in that order |
| `MotomanHardware.FirstMismatchNone` | src/motoman_hardware.cpp:50-87 | validation finds no failure exactly when every joint passes |
| `MotomanHardware.FirstMismatchSome` | src/motoman_hardware.cpp:50-87 | validation reports joint k and check v exactly when joint k fails check v first and every earlier joint passes |
| `MotomanHardware.LaterJointsNotExamined` | src/motoman_hardware.cpp:50-87 | the result does not depend on the joints after the first failing one |
| `MotomanHardware.StateInterfaceOrderMatters` | src/motoman_hardware.cpp:74-86 | [position, velocity] passes, [velocity, position] fails the position check |
| `MotomanHardware.ValidateJoints` | src/motoman_hardware.cpp:49-88 | the loop with early returns returns ERROR exactly when some joint fails, and reports the first failing joint and check |
| `MotomanHardware.ResetBuffers` | src/motoman_hardware.cpp:39-47 | three distinct buffers of one slot per joint, every slot NaN |
| `MotomanHardware.Resize` | src/motoman_hardware.cpp:39-41 | resize keeps the first slots and fills new ones with 0.0 |
| `MotomanHardware.MotomanHardware.constructor` | include/motoman_hardware/motoman_hardware.hpp:41-68 | a new plugin has no joints, empty buffers and status UNKNOWN |
| `MotomanHardware.MotomanHardware.Configure` | src/motoman_hardware.cpp:28-96 | a failed configure_default returns ERROR and changes nothing. Otherwise the joints and parameters are stored and the buffers are reset to all-NaN. OK and CONFIGURED come exactly when validation passes; ERROR leaves the status and the UDP address alone |
| `MotomanHardware.MotomanHardware.Bind` | src/motoman_hardware.cpp:90-95 | after validation passes: the UDP address and port are stored and the status becomes CONFIGURED; nothing else changes |
| `MotomanHardware.MotomanHardware.ExportStateInterfaces` | src/motoman_hardware.cpp:98-110 | 2n handles; handle 2i is (name_i, position, slot i of positions), handle 2i+1 is (name_i, velocity, slot i of velocities) |
| `MotomanHardware.MotomanHardware.ExportCommandInterfaces` | src/motoman_hardware.cpp:112-122 | n handles; handle i is (name_i, velocity, slot i of commands) |
| `MotomanHardware.MotomanHardware.Start` | src/motoman_hardware.cpp:124-150 | each buffer becomes `Defaulted` of its old contents, guarded by the old positions; status STARTED, returns OK |
| `MotomanHardware.StartDefaults` | src/motoman_hardware.cpp:135-143 | after start no position is NaN; a joint with a known position keeps all three values, even a NaN velocity or command; a joint with a NaN position gets 0 in all three |
| `MotomanHardware.StartIdempotent` | src/motoman_hardware.cpp:135-143 | a second start leaves every buffer unchanged |
| `MotomanHardware.ConfigureThenStart` | src/motoman_hardware.cpp:135-143 | starting right after configure's reset sets every slot to 0 |
| `MotomanHardware.MotomanHardware.Stop` | src/motoman_hardware.cpp:152-167 | status STOPPED whatever it was, returns OK, only the status changes |
| `MotomanHardware.MotomanHardware.Read` | src/motoman_hardware.cpp:169-184 | returns OK and changes nothing (no modifies clause), whatever the status |
| `MotomanHardware.MotomanHardware.Write` | src/motoman_hardware.cpp:186-197 | returns OK and changes nothing (no modifies clause), whatever the status |

## What the code does not do

- `configure` validates the joints only after it has resized the buffers and filled them with NaN. A `configure` that fails validation therefore leaves the buffers allocated and NaN. One whose `configure_default` fails returns before touching them and changes nothing.
- `configure` accepts only the state interfaces [position, velocity], in that order.
- `configure`, `start`, `stop`, `read` and `write` never look at the current status, so no transition is refused.
- `read` receives nothing and `write` sends nothing. The receive call is commented out, and the loops run over vectors that are never sized.
- The packed struct stores any `int` in `number_of_valid_groups`, and `Decode` does not reject a group count below 0 or above 4. The four `enum class` fields also have `int` as their underlying type, so the C++ struct would hold any code in them as well. `Decode` rejects a code that names no enumerator because the model gives each enumeration field a datatype with only the declared enumerators. It rejects nothing else besides short input.
- Nothing relates `length` to the message size, and no code fills `length` in. `Encode` writes the `length` it is given.
- Joint values travel as 32-bit `float` words. The codec moves them as opaque words and does not interpret them as IEEE-754 values.
- The class declaration (include/motoman_hardware/motoman_hardware.hpp:63-67) does not declare `positions_`, `velocities_`, `commands_`, `udp_ip_address_`, `udp_port_` or `udp_server_socket_`, although src/motoman_hardware.cpp uses them. The model gives the class the fields the .cpp uses.

## Left out

- The one-second sleep loops in `start` and `stop` (src/motoman_hardware.cpp:128-132, 156-160): wall-clock delays with a `double` bound. The model takes no step for them.
- Parameter parsing with `stod` and `stoi` (src/motoman_hardware.cpp:35-37, 90-91): string-to-number conversions from a library. `Configure` takes the parsed values as `Parameters`. Exceptions on malformed strings are not modelled.
- The UDP bind (src/motoman_hardware.cpp:92) and the commented-out receive (src/motoman_hardware.cpp:173): socket I/O. The bind and its exceptions are not modelled.
- `configure_default`, `info_` and `status_` belong to the `hardware_interface` library, which is not part of this model. `configure_default` is the input `defaultOk`. On success it stores the joint list. Anything else it does, such as setting the status itself, is not modelled.
- `HW_IF_POSITION` and `HW_IF_VELOCITY` are the strings "position" and "velocity". The model relies only on their being distinct.
- `hardware_interface::status` is modelled with UNKNOWN, CONFIGURED, STARTED and STOPPED only.
- The loops in `read` and `write` (src/motoman_hardware.cpp:175-180, 190-194) run over `hw_states_` and `hw_commands_`. Nothing ever sizes these vectors, so the loops run zero times. The model leaves out both fields, the loops and the relaxation formula.
- Logging and plugin registration (src/motoman_hardware.cpp:201-203): no observable state. The fatal log message of a validation failure appears only as `ValidateJoints`'s `mismatch` out-parameter.
- Floating point: joint values in the message are opaque 32-bit words. Buffer values are reduced to NaN or a real number, because the plugin only tests for NaN, copies values and writes zero.
- Byte order: the packed struct is in host byte order. The model fixes little-endian.
- The command variant fills only 184 of the union's 348 bytes. The C++ union leaves the rest unspecified; `Encode` writes zeros there. `EncodeDecode` therefore covers only the first 200 bytes of a command message.
- `std::vector::resize` may or may not move the storage. `Resize` always allocates a new array. Handles exported before a second `configure` keep pointing at the old arrays and see their old values. In C++ they dangle if `resize` moved the storage. If the storage stayed in place, they see the NaN reset.
- include/motoman_hardware/visibility_control.h holds only export macros. It is not part of this model.
