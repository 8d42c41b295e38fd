/** The overlay events of backend/app/schemas/events.py, both at schema version 1. */
module Events {

  /** The duck as the overlay sees it: its colour only. */
  datatype Duck = Duck(color: string)

  const SchemaVersion: int := 1

  datatype Event =
    | ChatEvent(userId: string, display: string, message: string, duck: Duck, v: int := SchemaVersion)
    | DuckUpdateEvent(userId: string, duck: Duck, v: int := SchemaVersion)
  {
    /** The `type` discriminator each event carries on the wire. */
    function Type(): string {
      match this
      case ChatEvent(_, _, _, _, _) => "chat"
      case DuckUpdateEvent(_, _, _) => "duck_update"
    }
  }

  /** An event handed to `send_event` for delivery on a channel. */
  datatype Emission = Emission(channel: string, event: Event)
}
