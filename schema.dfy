/** The two records the engine works with: a saved (bookmarked) device and a device found by a scan. */
module Schema {
  import opened Wrappers

  /** A saved device row; `id` 0 asks the database to assign one. */
  datatype Device = Device(
    id: int := 0,
    name: string,
    macAddress: string,
    ipAddress: string,
    port: int := 9,
    groupName: string := "Bookmarked",
    color: int := 0
  )

  /** A device found on the local network by the ping sweep or by service discovery. */
  datatype NetworkDevice = NetworkDevice(
    name: string,
    ip: string,
    port: int,
    serviceType: string,
    macAddress: Option<string> := None,
    broadcastAddress: string := ""
  )
}
