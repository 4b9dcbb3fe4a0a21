/** The Button part (src/utils/parts/button.ts): one battery behind one port
    whose use override lets energy out only while the button is pressed. */
module ButtonPart {
  import opened Common
  import opened Ports

  /** Whether `action` leaves the button pressed: `find` on the parts at the
      cursor's cell succeeds only for a defined `myID` that is among them. */
  function Presses(myID: Option<string>, occupants: seq<string>): bool
  {
    myID.Some? && myID.value in occupants
  }

  class Button {
    const battery: BatteryCell
    const ports: seq<Port>
    /** Holds `isPressed`, which the port's override reads on every use. */
    const switch: PressSwitch

    /** The one port draws from the button's battery, gated by its switch. */
    ghost predicate Valid()
    {
      |ports| == 1 && ports[0].battery == battery && ports[0].useGate == switch
    }

    ghost function Repr(): set<object>
    {
      {this, battery, switch} + set p | p in ports
    }

    constructor ()
      ensures Valid()
      ensures fresh(battery) && fresh(ports[0]) && fresh(switch)
      ensures battery.now == 0 && battery.max == 100
      ensures !switch.isPressed && !ports[0].powerIsOn
    {
      var cell := new BatteryCell(0, 100);
      var pressed := new PressSwitch();
      var port := new Port(cell, pressed);
      battery := cell;
      switch := pressed;
      ports := [port];
    }

    /** `action(_, myID)`: pressed exactly when `myID` is defined and names
        one of the parts at the cursor's cell (`occupants`), whatever the
        flag was before. */
    method Action(myID: Option<string>, occupants: seq<string>)
      modifies switch
      ensures switch.isPressed == Presses(myID, occupants)
    {
      var me := myID.Some? && myID.value in occupants;
      switch.isPressed := me;
    }
  }
}
