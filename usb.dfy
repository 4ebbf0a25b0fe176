/** Constants, entities and calls of the USB layer that pcsensor talks to.
    The libusb library itself is not modelled: its results enter the model
    as oracle values (see Protocol.DeviceIo and Devices.SetupIo). */
module Usb {

  type byte = x: int | 0 <= x < 0x100
  type uint16 = x: int | 0 <= x < 0x1_0000

  /** An interrupt-read buffer: `unsigned char answer[reqIntLen]`. */
  type Answer = s: seq<byte> | |s| == 8 witness [0, 0, 0, 0, 0, 0, 0, 0]

  datatype Option<+T> = None | Some(value: T)

  const VendorId: uint16 := 0x0c45
  const ProductId: uint16 := 0x7401
  const Interface1: nat := 0x00
  const Interface2: nat := 0x01
  /** Size of the device table `handles[MAX_DEV]`. */
  const MaxDev: nat := 8
  /** Length of every query and of every interrupt read. */
  const ReqIntLen: nat := 8
  /** The interrupt IN endpoint used by every read. */
  const EndpointIntIn: nat := 0x82
  /** Timeout (ms) of the init control write and of the temperature read. */
  const Timeout: nat := 1800

  /** An open device as returned by `usb_open`; opaque, told apart by a number. */
  datatype Handle = Handle(id: nat)

  /** A device on a bus. `openResult` is the oracle for `usb_open(dev)`:
      `None` stands for the NULL that a failed open returns. */
  datatype UsbDevice = UsbDevice(idVendor: uint16, idProduct: uint16, filename: string, openResult: Option<Handle>)

  /** A bus: its directory name and its devices in list order. */
  datatype Bus = Bus(dirname: string, devices: seq<UsbDevice>)

  /** The arguments of one `usb_control_msg` call. */
  datatype ControlSetup = ControlSetup(requestType: byte, request: byte, value: uint16, index: uint16, data: seq<byte>, timeoutMs: nat)

  /** A libusb call on the device in slot `slot` of the device table. */
  datatype UsbCall =
    | Detach(slot: nat, iface: nat)
    | SetConfiguration(slot: nat, configuration: nat)
    | ClaimInterface(slot: nat, iface: nat)
    | ControlMsg(slot: nat, setup: ControlSetup)
    | InterruptRead(slot: nat, endpoint: nat, length: nat, timeoutMs: nat)
    | ReleaseInterface(slot: nat, iface: nat)
    | Close(slot: nat)
}
