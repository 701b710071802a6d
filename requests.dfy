/**
 * The two control-request callbacks of the keyboard firmware, and the HID
 * report descriptor the first of them hands out.
 *
 * Each callback looks at the setup packet of a control transfer and either
 * declines it or takes it, setting the callback's out-parameters. The USB
 * stack's request codes are those of libopencm3: GET_DESCRIPTOR is 6 and
 * DFU_DETACH is 0.
 */
module HidRequests {
  import opened Types
  import opened KeyEncoder

  /** The setup packet of a control transfer (section 9.3 of the USB 2.0 specification). */
  datatype SetupData = SetupData(bmRequestType: byte, bRequest: byte, wValue: u16, wIndex: u16, wLength: u16)

  /** The verdicts the two callbacks return (the stack has a third, which they never use). */
  datatype RequestReturn = NotSupp | Handled

  /** What runs once the status stage of a request has completed. */
  datatype Completion = NoCompletion | DfuDetachComplete

  const GetDescriptor: byte := 6
  const DfuDetach: byte := 0

  /** Device-to-host, standard, addressed to an interface. */
  const InterfaceIn: byte := 0x81
  /** Host-to-device, class, addressed to an interface. */
  const ClassInterfaceOut: byte := 0x21
  /** Descriptor type 0x22 (report), index 0, in the high and low byte of wValue. */
  const ReportDescriptorRequest: u16 := 0x2200

  /** The report descriptor of a boot keyboard. */
  const ReportDescriptor: seq<byte> := [
    0x05, 0x01, 0x09, 0x06, 0xA1, 0x01,
    0x05, 0x07, 0x19, 0xE0, 0x29, 0xE7, 0x15, 0x00, 0x25, 0x01,
    0x75, 0x01, 0x95, 0x08, 0x81, 0x02,
    0x95, 0x01, 0x75, 0x08, 0x81, 0x01,
    0x95, 0x06, 0x75, 0x08, 0x15, 0x00, 0x25, 0x65,
    0x05, 0x07, 0x19, 0x00, 0x29, 0x65, 0x81, 0x00,
    0xC0
  ]

  /** The `wDescriptorLength` field of the HID descriptor: the size of the report descriptor. */
  const WDescriptorLength: u16 := |ReportDescriptor| as u16

  /** The out-parameters of a control callback together with its verdict. */
  datatype Reply = Reply(code: RequestReturn, buf: seq<byte>, len: u16)

  /**
   * The HID callback: it serves only GET_DESCRIPTOR for the report
   * descriptor and declines everything else, leaving buffer and length alone.
   */
  function HidControlRequest(req: SetupData, buf: seq<byte>, len: u16): (r: Reply)
    ensures r.code == Handled <==>
      req.bmRequestType == InterfaceIn && req.bRequest == GetDescriptor && req.wValue == ReportDescriptorRequest
    ensures r.code == Handled ==> r.buf == ReportDescriptor && r.len == WDescriptorLength
    ensures r.code != Handled ==> r == Reply(NotSupp, buf, len)
  {
    if req.bmRequestType != InterfaceIn || req.bRequest != GetDescriptor || req.wValue != ReportDescriptorRequest then
      Reply(NotSupp, buf, len)
    else
      Reply(Handled, ReportDescriptor, |ReportDescriptor| as u16)
  }

  /**
   * The DFU callback: it accepts only the class request DFU_DETACH and then
   * schedules the detach handler; otherwise it leaves the completion alone.
   */
  function DfuControlRequest(req: SetupData, complete: Completion): (r: (RequestReturn, Completion))
    ensures r.0 == Handled <==> req.bmRequestType == ClassInterfaceOut && req.bRequest == DfuDetach
    ensures r.0 != Handled ==> r == (NotSupp, complete)
    ensures r.0 == Handled ==> r.1 == DfuDetachComplete
  {
    if req.bmRequestType != ClassInterfaceOut || req.bRequest != DfuDetach then (NotSupp, complete)
    else (Handled, DfuDetachComplete)
  }

  /** The two callbacks never both take the same request. */
  lemma {:induction false} CallbacksExclusive(req: SetupData, buf: seq<byte>, len: u16, complete: Completion)
    ensures !(HidControlRequest(req, buf, len).code == Handled && DfuControlRequest(req, complete).0 == Handled)
  {
  }

  // ---------------------------------------------------------------------
  // The report descriptor against the reports the firmware sends.

  /** The index of the Logical Maximum data byte of the key array (item `0x25, 0x65`). */
  const KeyArrayLogicalMaxIndex: nat := 35

  /**
   * The descriptor is 45 bytes long, as `wDescriptorLength` says, ends with
   * End Collection, and gives the key array the logical maximum 101
   * (section 6.2.2 of the HID 1.11 specification).
   */
  lemma {:induction false} ReportDescriptorLayout()
    ensures WDescriptorLength as int == |ReportDescriptor| == 45
    ensures ReportDescriptor[44] == 0xC0
    ensures ReportDescriptor[KeyArrayLogicalMaxIndex - 1] == 0x25 && ReportDescriptor[KeyArrayLogicalMaxIndex] == 101
  {
  }

  /**
   * Every keycode the encoder stores lies within the key array's logical
   * range, so the host accepts each report the keyboard sends.
   */
  lemma {:induction false} EncoderKeycodesDeclared(a: char)
    ensures KeyStroke(a).keycode.Some? ==> KeyStroke(a).keycode.value <= ReportDescriptor[KeyArrayLogicalMaxIndex]
  {
  }
}
