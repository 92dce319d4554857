/**
 The description of a USB device: device, configurations, interfaces, endpoints.
 The source copies all four by value (vectors of objects, setters on locals), so they are datatypes;
 a setter is an update of the local value.
 */
module DeviceTree {
  import opened Machine

  datatype Endpoint = Endpoint(
    address: uint32,
    attributes: uint32,
    interval: int32,
    maxPacketSize: int32,
    interfaceId: byte)

  datatype Interface = Interface(
    id: int32,
    protocol: int32,
    klass: int32,
    subClass: int32,
    alternateSetting: int32,
    name: string,
    endpoints: seq<Endpoint>,
    iInterface: byte)

  datatype Config = Config(
    id: int32,
    attributes: uint32,
    interfaces: seq<Interface>,
    maxPower: int32,
    name: string,
    iConfiguration: byte)

  datatype Device = Device(
    name: string,
    manufacturerName: string,
    productName: string,
    version: string,
    serial: string,
    devAddr: byte,
    busNum: byte,
    descConfigCount: byte,
    bMaxPacketSize0: byte,
    bcdUSB: uint16,
    bcdDevice: uint16,
    iManufacturer: byte,
    iProduct: byte,
    iSerialNumber: byte,
    vendorId: int32,
    productId: int32,
    klass: int32,
    subClass: int32,
    protocol: int32,
    configs: seq<Config>)

  // The member initialisers of the source's classes.
  const DEFAULT_ENDPOINT := Endpoint(0, 0, -1, -1, UINT8_MAX)
  const DEFAULT_INTERFACE :=
    Interface(INT32_MAX, INT32_MAX, INT32_MAX, INT32_MAX, INT32_MAX, "", [], UINT8_MAX)
  const DEFAULT_CONFIG := Config(-1, 0, [], -1, "", UINT8_MAX)

  // A device description whose memory was cleared before use, as the service does on attach.
  const CLEARED_DEVICE :=
    Device("", "", "", "", "", 0, 0, 0, 0, 0, 0, 0, 0, 0, 0, 0, 0, 0, 0, [])
}
