/** The firmware's shared enumerations (include/system_enums.hh). */
module SystemEnums {

  /** Controller output. The enumeration in the header lists the first seven;
      the controller source also uses Idle and Active, so they are included. */
  datatype SystemState =
    | Uninitialized
    | HostReading
    | Scanning
    | Warning
    | Stopped
    | HostActiveState
    | HostStoppedState
    | Idle
    | Active

  /** Host link status as the controller sees it. The controller initialises
      it to a "disconnected" value; the header calls the non-connected value
      UNCONNECTED. Only Connected selects host-driven logic. */
  datatype HostConnectionStatus = NotConnected | Connected

  /** Host (PackML) state code. The RPC handler casts the received number to
      the enumeration without a range check, so any integer can arrive. */
  type HostState = int

  /** Code of HostState::UNDEFINED, the controller's initial host state. */
  const HostUndefined: HostState := 0

  /** The four host-state colour buckets. Their contents are defined outside
      this model, so they are given as sets of host-state codes. */
  datatype Buckets = Buckets(red: set<HostState>, yellow: set<HostState>, blue: set<HostState>, green: set<HostState>)
}
