# Verified model of the USB manager

This project models, in Dafny, how the USB manager service turns the bytes of an attached device into a
device description, keeps the table of attached devices, decides who may open them, and hands their
descriptions to clients, and proves what these steps promise together.

A device travels through the modules in this order:

- `DescriptorParser` is the descriptor parser in its own form: a byte array, 32-bit cursors, loops. It is
  proved, on every buffer, to compute `DescriptorSpec`, which also says when the parser reads a structure
  that does not lie in the buffer (`Undefined(ReadsOutside)`) or spins on an unchanged cursor
  (`Undefined(NeverReturns)`). `DescriptorLayout` is an independent serializer of trees after USB 2.0
  sections 9.6.1, 9.6.3, 9.6.5 and 9.6.6, with any other descriptors interleaved; `DescriptorTheorems`
  proves that the parser inverts it, and exactly when; `MalformedDescriptors` says, by positions and
  numbers, what each call does on any other bytes.
- `DeviceStrings` decodes string descriptors (USB 2.0 section 9.6.7) and names the description;
  `DeviceInfo` is the driver from usbd's answers to a description.
- `HostManager` is the table of owned device objects on an explicit heap, `RightManager` the rights table,
  `StateBroadcast` and `FunctionList` the device-mode functions, `Service` the state machine of all of
  them with its runs.
- `DeviceCodec` is the row of parcel cells a device list becomes, `StubWriter` the service's writers,
  `ProxyReader` the client's readers; `BufferCodec` and `TransferCodec` are the data buffers and the queued
  transfers that carry them; `JsonCodec` is the other export.
- `EndToEnd` composes them: bytes to client, a run of the service to the client's list, and both together.
  `Listener` follows the broadcasts of a run and compares what they tell with the client's list.

Where the source changes things step by step there is a class or a method with loops, and its contract
ties the result or the new state to a specification function; the lemmas speak about those functions.
Configurations, interfaces and endpoints are datatypes: the source copies them by value and never shares
them. The answers of usbd, the user's answer to the permission dialog, the caller's bundle name and the
point at which a parcel refuses a write are parameters; publishing appends to a ghost log.

Seven things the code does differ from what one may expect, and are stated as such:

- A configuration with fewer usable interfaces (those with endpoints) than it announces is parsed only if
  nothing follows its last interface or endpoint; what does follow is searched for more interfaces, also
  in the next configuration. When the search fails it reads past the end, or spins on a bare header.
- Interfaces without endpoints are dropped, and so are usable ones beyond the announced number, which
  alternate settings use up.
- An endpoint descriptor whose size is not 7, as in USB Audio 1.0, leaves blank endpoints from there on; an
  interface descriptor whose size is not 9 is retried for ever.
- At most one configuration is reported, because the count is returned as a `bool`.
- The device protocol is never copied from the descriptor and arrives as 0.
- The maximum power is doubled by every trip through the parcel.
- An attach without a raw descriptor is still registered, under bus 0 and address 0; one with a refused
  device descriptor is registered under its own name with nothing else set.

## Model

| member | source | states |
|---|---|---|
| DescriptorParser.ParseEndpointDescriptor | services/native/src/usb_descriptor_parser.cpp:173-212 | on every buffer, null included: code, endpoint and cursor left, or the hazard; no 32-bit cursor arithmetic wraps and every read it performs lies in the buffer |
| DescriptorParser.ParseInterfaceDescriptor | services/native/src/usb_descriptor_parser.cpp:120-171 | the same for an interface with its endpoint loop, whose callee results are ignored |
| DescriptorParser.ParseConfigDescriptor | services/native/src/usb_descriptor_parser.cpp:76-118 | the same for a configuration with the retrying interface loop |
| DescriptorParser.ParseDeviceDescriptor | services/native/src/usb_descriptor_parser.cpp:39-74 | code and filled device for every buffer |
| DescriptorLayout.EndpointOffsets | services/native/src/usb_descriptor_parser.cpp:27-32 | a laid-out endpoint is 7 bytes, of type 5, with every field at its offset in the standard, low byte first |
| DescriptorLayout.InterfaceOffsets | services/native/src/usb_descriptor_parser.cpp:27-32 | a laid-out interface is 9 bytes, of type 4, likewise |
| DescriptorLayout.ConfigOffsets | services/native/src/usb_descriptor_parser.cpp:27-32 | a laid-out configuration is 9 bytes, of type 2, likewise |
| DescriptorLayout.DeviceOffsets | services/native/src/usb_descriptor_parser.cpp:27-32 | a laid-out device is 18 bytes, of type 1, likewise |
| MalformedDescriptors.EveryScanStops | services/native/src/usb_descriptor_parser.cpp:180-197 | in every buffer the chain of passed descriptors ends at some position |
| MalformedDescriptors.ScanDecided | services/native/src/usb_descriptor_parser.cpp:128-146 | what stands at that position decides the scan: found, refused, read outside, or spinning |
| MalformedDescriptors.EndpointDecided | services/native/src/usb_descriptor_parser.cpp:173-212 | main result: the endpoint call on every buffer, by bytes: type 5, size 7, each field, and the code, object and cursor of every way to fail |
| MalformedDescriptors.InterfaceDecided | services/native/src/usb_descriptor_parser.cpp:120-171 | main result: the interface call on every buffer likewise, type 4 and size 9 |
| MalformedDescriptors.ConfigRefusedExact | services/native/src/usb_descriptor_parser.cpp:76-118 | a configuration is refused iff it has fewer than 9 bytes or another size, with nothing or 9 bytes consumed; else its fields are those bytes |
| MalformedDescriptors.DeviceDecided | services/native/src/usb_descriptor_parser.cpp:39-74 | the device call on every buffer, by bytes |
| MalformedDescriptors.WrongSizeEndpointsExact | services/native/src/usb_descriptor_parser.cpp:199-204 | an endpoint descriptor of another size is never passed: it and all further ones come out blank with the interface's id, and only the gap is consumed |
| MalformedDescriptors.WrongSizeEndpointBlanksInterface | services/native/src/usb_descriptor_parser.cpp:158-170 | so such an interface keeps its own fields and its number of endpoints, all blank |
| MalformedDescriptors.WrongSizeInterfaceSpins | services/native/src/usb_descriptor_parser.cpp:103-115 | an interface descriptor of another size stops the retry loop for ever, or is read past the end |
| DescriptorTheorems.ParseInterfaceInverts | services/native/src/usb_descriptor_parser.cpp:120-171 | any laid-out interface, whatever follows it, comes back with exactly its own endpoints, and exactly its bytes are consumed, at least 9 |
| DescriptorTheorems.ParseConfigExact | services/native/src/usb_descriptor_parser.cpp:76-212 | main result: on every laid-out configuration the parser returns iff there are as many usable interfaces as announced or nothing follows the last one; it then yields the first announced number of usable interfaces in stream order, and consumes whole descriptors only; otherwise it spins iff what is left is one bare 2-byte header, and else reads outside |
| DescriptorTheorems.ParseCompleteConfig | services/native/src/usb_descriptor_parser.cpp:103-115 | a complete configuration is parsed the same whatever bytes follow it |
| DescriptorTheorems.FirstConfigurationExact | services/native/src/usb_service.cpp:548-563 | with any number of configurations in the buffer: when the parser returns, what it returns, what goes wrong when it does not, and that the result is the first configuration iff that one is complete or all behind it adds no usable interface and no tail |
| DescriptorTheorems.TrailingDescriptorFails | services/native/src/usb_descriptor_parser.cpp:128-146 | 41 bytes with the announced total length and number of interfaces, and no defined result |
| DescriptorTheorems.SecondConfigurationLeaksIn | services/native/src/usb_descriptor_parser.cpp:103-115 | two configurations of their announced lengths, where the second one's interface is reported in the first |
| DescriptorTheorems.ZeroProgressIsForever | services/native/src/usb_descriptor_parser.cpp:103-115 | a call that consumes nothing leaves index, cursor and interfaces unchanged for any number of turns |
| DescriptorTheorems.RetryLoopExact | services/native/src/usb_descriptor_parser.cpp:103-115 | on every input, the loop with its cancelled increments ends after some number of turns iff the specification returns, reads outside iff it says so, and is said never to return iff no number of turns ends it or a call in its body never returns |
| DescriptorTheorems.ScanLoopExact | services/native/src/usb_descriptor_parser.cpp:128-144 | on every input, a scan is said never to return iff no number of turns ends it |
| DescriptorTheorems.InterfaceSpinsExact | services/native/src/usb_descriptor_parser.cpp:120-171 | on every input, one such call is said never to return iff the scan for the interface, or the scan for one of its endpoints after reading those before it, never ends |
| DescriptorTheorems.ParseDeviceInverts | services/native/src/usb_descriptor_parser.cpp:39-74 | every laid-out device descriptor comes back field by field, except the protocol |
| DeviceInfo.GetConfigDescriptor | services/native/src/usb_service.cpp:541-568 | the driver loop over configurations from offset 18, then naming |
| DeviceInfo.GetDeviceInfoDescriptor | services/native/src/usb_service.cpp:512-539 | what is set before and after the raw descriptor is accepted, and the code: usbd's own, or that of the descriptor |
| DeviceInfo.GetDeviceInfo | services/native/src/usb_service.cpp:570-596 | the description for all answers of usbd; a failing device part does not stop it |
| DeviceInfo.AtMostOneConfiguration | interfaces/innerkits/native/include/usb_device.h:147-150 | no description has more than one configuration |
| DeviceInfo.DescribedUnderOwnName | services/native/src/usb_service.cpp:582-586 | a description carries the attached bus and address iff a raw descriptor was handed out, or both are 0 |
| DeviceInfo.RefusedDescriptorStillKnown | services/native/src/usb_service.cpp:582-595 | a refused device descriptor still gives a device, under its own name, with nothing else set |
| DeviceInfo.RefusedExact | services/native/src/usb_service.cpp:541-596 | for all answers of usbd: an attach is refused iff the open call fails, or an accepted device descriptor counts configurations and is followed by something other than a 9-byte header; with the code |
| DeviceInfo.DescribedIsSound | services/native/src/usb_descriptor_parser.cpp:160-169 | in every description each endpoint's interface id is its interface's id, a byte; list lengths fit a byte |
| DeviceStrings.GetDevStringValFromIdx | services/native/src/usb_service.cpp:428-464 | the detour over 16-bit cells and 32-bit characters yields every other byte behind the header; only filled cells are read; all refusals give one blank |
| DeviceStrings.DecodeYieldsLowBytes | services/native/src/usb_service.cpp:455-459 | decoding any UTF-16LE text, also with a stray last byte, gives the low byte of each code unit |
| DeviceStrings.DecodeExactOnLatin1 | services/native/src/usb_service.cpp:455-459 | decoding gives the text itself iff all code units are below 256 |
| DeviceStrings.StringReadsText | services/native/src/usb_service.cpp:428-464 | the string descriptor of any text under any index but 0 reads as the low byte of each code unit |
| DeviceStrings.StringDecided | services/native/src/usb_service.cpp:434-447 | one blank for index 0, no answer, fewer than two bytes or another type than 3; every other byte behind the header in all other cases |
| DeviceStrings.VersionNibbles | services/native/src/usb_service.cpp:466-486 | the release number is the decimal of its nibbles, the low byte in front |
| DeviceStrings.BcdToString | services/native/src/usb_service.cpp:466-474 | the nibbles printed in decimal, in order |
| DeviceStrings.VersionLength | services/native/src/usb_service.cpp:484-486 | the printed release has four characters iff it is binary-coded decimal |
| DeviceStrings.VersionInjectiveOnBcd | services/native/src/usb_service.cpp:484-486 | and then identifies it |
| DeviceStrings.FillDevStrings | services/native/src/usb_service.cpp:476-510 | the copy and write-back loops give the device with every name replaced |
| DeviceStrings.NamingIsFrame | services/native/src/usb_service.cpp:476-510 | only names change, each to the decode of its own index; doing it twice changes nothing more |
| Text.NameReadsBack | services/native/src/usb_service.cpp:182 | a name has one dash; the number before it is the bus, the one behind it the address, both without leading zeros |
| Text.DeviceNameInjective | services/native/src/usb_service.cpp:182 | "bus-address" is injective over all pairs of naturals |
| Parcels.IntCellMeans | services/zidl/src/usb_srv_stub.cpp:639-642 | a signed word travels in two's complement |
| Parcels.MessageParcel.WriteRun | utils/native/include/usb_common.h:125-131 | a run of write macros: the cells that fit, and an error iff not all do |
| StubWriter.SetDeviceEndpointsMessageParcel | services/zidl/src/usb_srv_stub.cpp:724-735 | appends the endpoints' cells, or those that fit and the error |
| StubWriter.SetDeviceInterfacesMessageParcel | services/zidl/src/usb_srv_stub.cpp:701-722 | the same for interfaces |
| StubWriter.SetDeviceConfigsMessageParcel | services/zidl/src/usb_srv_stub.cpp:680-699 | the same for configurations |
| StubWriter.SetDeviceMessageParcel | services/zidl/src/usb_srv_stub.cpp:653-678 | the same for one device |
| StubWriter.SetDeviceListMessageParcel | services/zidl/src/usb_srv_stub.cpp:639-651 | the same for the whole list, its length cut to a signed 32-bit count |
| StubWriter.CheckInterfaceToken | services/zidl/src/usb_srv_stub.cpp:186-195 | a request is let through iff it begins with the interface token, which is consumed |
| ProxyReader.GetDeviceEndpointsMessageParcel | services/zidl/src/usb_srv_proxy.cpp:247-268 | on a written row: the endpoints it holds, and the cursor behind them |
| ProxyReader.GetDeviceInterfacesMessageParcel | services/zidl/src/usb_srv_proxy.cpp:206-245 | the same for interfaces, with the rebuilt interface ids |
| ProxyReader.GetDeviceConfigsMessageParcel | services/zidl/src/usb_srv_proxy.cpp:169-204 | the same for configurations |
| ProxyReader.GetDeviceMessageParcel | services/zidl/src/usb_srv_proxy.cpp:116-167 | the same for one device |
| ProxyReader.GetDeviceListMessageParcel | services/zidl/src/usb_srv_proxy.cpp:103-114 | the same for the list; on any row it fails iff no count can be read, with the read error and no device, and else returns as many devices as counted |
| DeviceCodec.DevicesRoundTrip | services/zidl/src/usb_srv_proxy.cpp:103-268 | main result: lists of any length come back as `DeviceSeen` says, as far as their 32-bit count goes and so whole below 2^31 devices; exactly the written cells are consumed, any suffix is left |
| DeviceCodec.RowsAreUnambiguous | services/zidl/src/usb_srv_stub.cpp:639-735 | equal rows, with anything behind them, come from lists a client cannot tell apart |
| DeviceCodec.EndpointRow | services/zidl/src/usb_srv_stub.cpp:724-735 | the cells of an endpoint in order |
| DeviceCodec.InterfaceRow | services/zidl/src/usb_srv_stub.cpp:701-722 | the cells of an interface in order, then its endpoints, then the other interfaces |
| DeviceCodec.ConfigRow | services/zidl/src/usb_srv_stub.cpp:680-699 | the cells of a configuration in order, then its interfaces, then the other configurations |
| DeviceCodec.DeviceRow | services/zidl/src/usb_srv_stub.cpp:653-678 | the cells of a device in order, then its configurations |
| DeviceCodec.MaxPowerDoubled | interfaces/innerkits/native/include/usb_config.h:81-85 | the power arrives as twice the stored value iff that fits 32 bits |
| DeviceCodec.InterfaceIdRecovered | services/zidl/src/usb_srv_proxy.cpp:237-240 | an interface arrives unchanged iff its endpoints carried the low byte of its id |
| BufferCodec.SetBufferMessage | services/zidl/src/usb_srv_stub.cpp:36-53 | the cells of a buffer, its length cut to 32 bits, or those that fit and the error |
| BufferCodec.GetBufferMessage | services/zidl/src/usb_srv_proxy.cpp:54-75 | buffer, code and cursor for every row |
| BufferCodec.BufferReadExact | services/zidl/src/usb_srv_proxy.cpp:54-75 | a row reads as a buffer iff it begins with that buffer as written |
| BufferCodec.BuffersRoundTrip | services/zidl/src/usb_srv_stub.cpp:542-551 | client data and transfer buffer written in a row come back in order, empty ones included |
| BufferCodec.BufferRoundTrip | services/zidl/src/usb_srv_proxy.cpp:33-75 | a buffer comes back cut to its 32-bit length, so whole iff it is shorter than 4 GB |
| TransferCodec.WriteTransfer | services/zidl/src/usb_srv_proxy.cpp:796-810 | the request of a transfer, or the cells that fit and a code that tells the bytes from the buffers, although the code of the first two writes is ignored |
| TransferCodec.WriteWait | services/zidl/src/usb_srv_proxy.cpp:834-835 | the request of a wait, or the cells that fit and the error |
| TransferCodec.DoRequestQueue | services/zidl/src/usb_srv_stub.cpp:529-559 | on every row: usbd is asked iff the request can be read, for exactly what was read, and its code is handed back |
| TransferCodec.DoRequestWait | services/zidl/src/usb_srv_stub.cpp:561-591 | on every row: code and reply; the buffers are written iff the request can be read and usbd succeeds |
| TransferCodec.TransferRoundTrip | services/zidl/src/usb_srv_stub.cpp:529-559 | the whole request of a transfer comes back with its four bytes and two buffers, and nothing behind it is read |
| TransferCodec.WaitRoundTrip | services/zidl/src/usb_srv_stub.cpp:561-571 | the whole request of a wait comes back, negative timeouts included |
| TransferCodec.TransferReadExact | services/zidl/src/usb_srv_stub.cpp:529-552 | a row reads as a transfer iff it is bus, address, interface, endpoint and two written buffers in this order; the code of every other row |
| TransferCodec.WaitReadExact | services/zidl/src/usb_srv_stub.cpp:561-570 | a row reads as a wait iff it is bus, address and timeout; the code of every other row |
| TransferCodec.TransferBuffersRoundTrip | services/zidl/src/usb_srv_proxy.cpp:842-854 | so do the two buffers of its reply, whole iff both are shorter than 4 GB |
| TransferCodec.RequestQueue | services/zidl/src/usb_srv_proxy.cpp:784-818 | the whole call: usbd gets the client's transfer iff the service is connected and token and row fit, and the code is usbd's or says what failed |
| TransferCodec.RequestWait | services/zidl/src/usb_srv_proxy.cpp:820-855 | the whole call: usbd is asked for exactly this device and timeout iff the service is connected and token and row fit, and on success the client gets exactly usbd's buffers |
| JsonCodec.InterfaceToJson | interfaces/innerkits/native/include/usb_interface.h:179-196 | the appending loop builds the JSON of the interface, null for no endpoints |
| JsonCodec.ConfigToJson | interfaces/innerkits/native/include/usb_config.h:159-176 | the same for a configuration |
| JsonCodec.DeviceToJson | interfaces/innerkits/native/include/usb_device.h:313-336 | the same for a device |
| JsonCodec.NewInterface | interfaces/innerkits/native/include/usb_interface.h:46-59 | the appending constructor computes `InterfaceFrom`, with null, truth values and numbers converted as the library does |
| JsonCodec.NewConfig | interfaces/innerkits/native/include/usb_config.h:41-52 | the same for a configuration |
| JsonCodec.NewDevice | interfaces/innerkits/native/include/usb_device.h:49-68 | the same for a device |
| JsonCodec.EndpointMembers | interfaces/innerkits/native/include/usb_endpoint.h:139-152 | each of the eight members under its own name: direction is bit 7, number bits 0 to 3, type bits 0 and 1 |
| JsonCodec.InterfaceMembers | interfaces/innerkits/native/include/usb_interface.h:179-196 | each member of an interface under its own name |
| JsonCodec.ConfigMembers | interfaces/innerkits/native/include/usb_config.h:159-176 | each member of a configuration under its own name |
| JsonCodec.DeviceNumberMembers | interfaces/innerkits/native/include/usb_device.h:313-326 | each number of a device under its own name |
| JsonCodec.DeviceTextMembers | interfaces/innerkits/native/include/usb_device.h:313-336 | each text of a device and its configurations under their own names, null for no configuration |
| JsonCodec.NotEmitted | interfaces/innerkits/native/include/usb_device.h:346-353 | what is not emitted comes back as 255 or 65535 |
| JsonCodec.EndpointJsonRoundTrip | interfaces/innerkits/native/include/usb_endpoint.h:37-44 | an endpoint comes back whole; the derived members are ignored |
| JsonCodec.DerivedEndpointMembers | interfaces/innerkits/native/include/usb_endpoint.h:139-152 | emitted direction plus number is the address iff no other bit of it is set; the type is the attributes modulo 4 |
| JsonCodec.DerivedConfigMembers | interfaces/innerkits/native/include/usb_config.h:92-100 | the two emitted flags are bits 7 and 5 of the attributes |
| JsonCodec.DeviceJsonRoundTrip | interfaces/innerkits/native/include/usb_device.h:49-68 | every device comes back except for the members that are not emitted |
| JsonCodec.ExportsAgree | services/native/src/usb_host_manager.cpp:96-111 | the device rebuilt from JSON and the one read from the parcel agree in all they share, power doubled, iff every endpoint carries its interface's id |
| JsonCodec.DescribedExportsAgree | services/native/src/usb_host_manager.cpp:96-111 | so they agree for every described device |
| FunctionList.ConvertFromString | services/native/src/usb_device_manager.cpp:44-79 | tokenising and OR loops compute `FromText`, with the shortcut for "none", and hand back the error code for a refused text |
| FunctionList.ConvertedExact | services/native/src/usb_device_manager.cpp:66-79 | a listing of known names gives their mask, every other text the error code |
| FunctionList.KnownNames | services/native/src/usb_device_manager.cpp:29-36 | the six known names, and no others |
| FunctionList.ErrorToldApart | services/native/src/usb_device_manager.cpp:44-79 | the error code tells a refused text from every mask iff it is above 31, whatever its value |
| FunctionList.LanguageExact | services/native/src/usb_device_manager.cpp:44-79 | main result: accepted are exactly the non-empty comma-separated lists of known names with at most one comma at the end; each yields the OR of its names |
| FunctionList.MaskIsMembership | services/native/src/usb_device_manager.cpp:67-76 | the mask is determined by which names occur |
| FunctionList.OrderAndRepetitionFree | services/native/src/usb_device_manager.cpp:67-76 | lists with the same names give the same mask |
| FunctionList.ConvertToString | services/native/src/usb_device_manager.cpp:81-110 | the settable names of a mask in fixed order, "none" for 0 and above 7 |
| FunctionList.PrintedTexts | services/native/src/usb_device_manager.cpp:81-110 | the text of each of the eight settable masks, and "none" for every mask above 7 |
| FunctionList.PrintedMaskReadsBack | services/native/src/usb_device_manager.cpp:81-110 | printing and reading back gives the mask up to 7, and 0 above |
| FunctionList.SettableIffReadsBack | services/native/src/usb_device_manager.cpp:38-42 | the settable masks are exactly those up to 7, and those that survive printing |
| StateBroadcast.UsbDeviceManager.NameBits | services/native/src/usb_device_manager.cpp:143-154 | the bit loop ends for every 32-bit mask and collects exactly its names |
| StateBroadcast.UsbDeviceManager.HandleEvent | services/native/src/usb_device_manager.cpp:122-163 | new state and broadcast for every status |
| StateBroadcast.NamesSetExact | services/native/src/usb_device_manager.cpp:146-154 | one name per settable bit that is on, "none" iff a higher bit is on |
| RightManager.UsbRightManager.HasRight | services/native/src/usb_right_manager.cpp:32-48 | true iff the device's list holds the bundle |
| RightManager.UsbRightManager.AddDeviceRight | services/native/src/usb_right_manager.cpp:74-92 | exactly one bundle more, despite the insertion after push_back; false iff it was there |
| RightManager.UsbRightManager.RemoveDeviceRight | services/native/src/usb_right_manager.cpp:94-103 | exactly this device's list is gone; true iff there was one |
| RightManager.UsbRightManager.RequestRight | services/native/src/usb_right_manager.cpp:50-72 | granted iff agreed, success iff the right holds afterwards |
| RightManager.RightsExact | services/native/src/usb_right_manager.cpp:32-103 | main result: in every run a right holds iff an agreed request is not followed by a removal, and no list has a duplicate |
| HostManager.UsbHostManager.AddDevice | services/native/src/usb_host_manager.cpp:67-94 | table, heap and log after adding, an existing entry deleted and replaced; nothing happens for null |
| HostManager.UsbHostManager.DelDevice | services/native/src/usb_host_manager.cpp:40-65 | table, heap and log after deleting, or all unchanged |
| HostManager.AttachKeepsInv | services/native/src/usb_host_manager.cpp:67-94 | an attach keeps the invariant, changes one entry and no other description |
| HostManager.DetachKeepsInv | services/native/src/usb_host_manager.cpp:40-65 | a detach keeps the invariant and removes one entry at most |
| HostManager.RegistryExact | services/native/src/usb_host_manager.cpp:40-94 | main result: after every run the table holds for each bus and address exactly the description of the last attach that no detach followed, each entry live and under its own name |
| HostManager.OwnedOrDeletedOnce | services/native/src/usb_service.cpp:598-642 | after every run each object ever made is owned by exactly one entry or was deleted exactly once |
| HostManager.BroadcastsAccountForEntries | services/native/src/usb_host_manager.cpp:57-92 | attached minus detached broadcasts minus replacements is the number of entries |
| HostManager.BroadcastsTellTable | services/native/src/usb_host_manager.cpp:40-94 | main result: after every run, replaying the broadcasts gives for each bus and address exactly what the table holds |
| HostManager.DetachSays | services/native/src/usb_host_manager.cpp:40-65 | a detach broadcasts the description the table held, or nothing if it held none |
| HostManager.AttachSays | services/native/src/usb_host_manager.cpp:67-94 | an attach broadcasts its description, a refused one nothing |
| HostManager.EntriesFollowEvents | services/native/src/usb_service_subscriber.cpp:69-94 | if every attach got a raw descriptor, entries exist exactly where the last successful event was an attach |
| HostManager.EmptyDescriptorMisfiled | services/native/src/usb_service.cpp:582-586 | without a raw descriptor, the attach of 1-2 makes an entry 0-0 and none for 1-2 |
| Service.UsbService.AddDevice | services/native/src/usb_service.cpp:598-626 | one attach step; the object is deleted again iff it cannot be described |
| Service.UsbService.DelDevice | services/native/src/usb_service.cpp:628-642 | one detach step |
| Service.UsbService.DeviceEvent | services/native/src/usb_service_subscriber.cpp:69-94 | what each status does: a detach empties the place of the two bytes and no other, an attach puts the description at its own place or changes nothing, the device-mode statuses leave the table alone |
| Service.UsbService.HasRight | services/native/src/usb_service.cpp:197-212 | true iff the caller is known and holds the right |
| Service.UsbService.RequestRight | services/native/src/usb_service.cpp:214-229 | one request step and each of its three codes |
| Service.UsbService.RemoveRight | services/native/src/usb_service.cpp:231-242 | one removal step and both codes |
| Service.UsbService.OpenDevice | services/native/src/usb_service.cpp:180-195 | usbd is asked iff the caller holds the right for the printed name; else permission denied |
| Service.UsbService.GetDevices | services/native/src/usb_service.cpp:244-259 | the descriptions of all entries in key order |
| KeyOrder.LexLeMeans | services/native/src/usb_service.cpp:253-257 | the order of the walk: a prefix first, otherwise the smaller character at the first difference |
| Service.ListingExists | services/native/src/usb_service.cpp:253-257 | every table that keeps the invariant has such a list |
| Service.ListingIsUnique | services/native/src/usb_service.cpp:253-257 | a table has exactly one such list |
| Service.OpensAreGated | services/native/src/usb_service.cpp:180-212 | main result: in every run exactly the opens whose caller has a standing grant for that name reach usbd, in order |
| Service.GrantIsForThisDevice | services/native/src/usb_service.cpp:182 | a standing grant comes from an agreed request by this caller that names this bus and address and no other |
| Service.HostFollowsEvents | services/native/src/usb_service_subscriber.cpp:69-94 | only device events move the table |
| Service.RightsFollowRequests | services/native/src/usb_service.cpp:214-242 | only requests and removals move the rights; they outlive a detach |
| EndToEnd.BytesToClient | services/native/src/usb_service.cpp:541-568 | main result: for every laid-out device the service describes it iff the parser has a defined result, and then the client decodes the device as laid out, power exactly 2 * bMaxPower; otherwise the hazard is that of the bytes left over |
| EndToEnd.CompleteFirstConfigurationArrives | services/native/src/usb_service.cpp:548-563 | a complete first configuration is the one that arrives |
| EndToEnd.EveryConfigurationArrives | interfaces/innerkits/native/include/usb_device.h:147-150 | the device a client decodes holds every laid-out configuration, each cut to the first announced number of its usable interfaces, iff there is none, or exactly one and an announced count other than 0 |
| EndToEnd.KeptInterfacesExact | services/native/src/usb_descriptor_parser.cpp:103-115 | the cut loses no interface iff every one has endpoints and there are no more than announced |
| EndToEnd.WholeTreeArrives | services/native/src/usb_descriptor_parser.cpp:76-171 | main result: for every laid-out device, the client decodes all configurations with all interfaces iff there is none, or exactly one that is counted, has no interface without endpoints, none beyond the announced number, and none missing in front of other descriptors; and the whole device iff moreover its protocol is 0 |
| EndToEnd.ProtocolArrives | services/native/src/usb_descriptor_parser.cpp:61-72 | in the device a client decodes, the protocol is the one sent iff that is 0 |
| EndToEnd.NewestIsStanding | services/native/src/usb_service_subscriber.cpp:69-94 | the newest description of a bus and address is that of the one attach that was opened and that no later effective event is about |
| EndToEnd.ClientSeesLayouts | services/zidl/src/usb_srv_stub.cpp:623-637 | main result: after every run whose raw descriptors are laid out, devices that cannot be opened or have no descriptor included, the list a client decodes holds exactly the devices as laid out of the attaches no later effective event is about, each once |
| EndToEnd.ClientSeesRegistry | services/zidl/src/usb_srv_stub.cpp:623-637 | main result: after every run the client decodes exactly the newest descriptions of the attached devices |
| EndToEnd.DoGetDevices | services/zidl/src/usb_srv_stub.cpp:623-637 | the listing is written whole, or as far as it fits with the error |
| EndToEnd.SendGetDevices | services/zidl/src/usb_srv_stub.cpp:186-207 | the listing is written iff the request begins with the token |
| EndToEnd.GetDevices | services/zidl/src/usb_srv_proxy.cpp:77-101 | the client's list is the service's listing as seen through the parcel; the call succeeds iff the service is connected, the token fits the request and the row the reply, and else the code says which |
| Listener.HeardIsReplay | services/native/src/usb_host_manager.cpp:96-111 | rebuilding devices from the broadcasts' JSON loses nothing but the members that are not emitted |
| Listener.ListenerKnowsTable | services/native/src/usb_host_manager.cpp:40-111 | after every run a listener to every broadcast believes, for each bus and address, the newest description, or nothing where nothing is attached |
| Listener.ListenerAgreesWithClient | services/native/src/usb_host_manager.cpp:96-111 | main result: after every run a listener and a client know the same devices, equal in all that both are told |

## Left out

- ParseConfigDescriptor: buffers longer than 0xFFFFFF00 bytes, where a cursor could wrap around; the two parsers it calls likewise. The pure specification has no such bound.
- GetConfigDescriptor: the same bound on the raw descriptor.
- GetDeviceListMessageParcel: rows that no writer produces have no stated contents, because two counts are then used without having been read; the other four readers likewise.
- AddDevice: attaches for which the parser has no defined result, the failure branches of memory allocation and clearing, and a missing host manager.
- NewInterface: what the library refuses to convert or to index (text or lists as a number, lists as text, numbers out of range, an object where a list belongs, a member of something that is not an object) reads as 0, empty or missing here, while the library throws; numbers are integers only; the other two constructors likewise.
- ConvertFromString: the value of the error code is a parameter, because it is defined in a header that is not part of this model.
- DevicesRoundTrip: devices with 2^31 or more configurations, interfaces or endpoints in one list, which no described device has.
- RequestQueue: the transport between the two parcels, which may fail by itself; RequestWait and GetDevices likewise. A token that cannot be read reads as the empty text.
- ListenerKnowsTable: broadcasts that the platform drops, whose failure the source only logs, and the text form of the JSON tree.
- String descriptors: usbd is taken to give the same answer whenever an index of one device is asked for again.
- Sizes of the descriptor structures: their header is not part of this model; 18, 9, 9 and 7 are taken from USB 2.0.
- Parcel cells are typed and count as one each; how the platform pads and measures them is not modelled, only that it may refuse any write.
- Permission dialog, bundle manager, common event service, usbd client, ashmem: their answers are parameters.
- Opening and closing handles towards usbd while a device is described: not balanced in the source on its failure path.
- Direct transfers, claiming interfaces, active configurations: one forwarded call each.
- Port manager: a table of records whose properties follow from single branches.
- Service start-up, retries, sleeps, locking, death recipients: timing and platform plumbing.
- JavaScript interface and dialog user interface: foreign calls only.
