/** Messages and button sets shared by the TV client and the gateway bridge.
    A button mask is modelled as the set of the buttons whose bit it carries. */
module GamepadProtocol {
  import opened Basics

  datatype Button =
    | A | B | X | Y | LeftBumper | RightBumper | Back | Start
    | LeftStick | RightStick | DpadUp | DpadDown | DpadLeft | DpadRight | Guide

  type Buttons = set<Button>

  /** The protocol buttons that drive the simulated mouse. */
  const MOUSE_BUTTON_MASK: Buttons := {A, B, X, LeftBumper, RightBumper}

  /** Controller ids are uint32 on the wire; the client draws them from a counter. */
  type ControllerId = nat

  const MAXIMUM_GAMEPADS: nat := 16

  datatype Connected = Connected(
    id: ControllerId, name: string, mapping: string, buttonCount: nat, axisCount: nat,
    dualRumble: bool, triggerRumble: bool)

  /** The checks handleControlMessage makes on an already parsed announcement. */
  predicate WithinLimits(m: Connected) {
    && m.id < TWO_TO_THE_32
    && |m.name| <= 512 && |m.mapping| <= 128
    && m.buttonCount <= 64 && m.axisCount <= 16
  }

  /** A gamepad-state message after JSON parsing: uint64 sequence, finite stick values. */
  datatype StateMessage = StateMessage(
    id: ControllerId, sequence: nat, buttons: Buttons, timestamp: real,
    leftTrigger: real, rightTrigger: real,
    leftStickX: real, leftStickY: real, rightStickX: real, rightStickY: real)

  predicate WellFormed(m: StateMessage) {
    m.id < TWO_TO_THE_32 && m.sequence < TWO_TO_THE_64 && m.timestamp >= 0.0
  }
}
