# Verification of lib_device_control

This project models the device control protocol engine and its host side, and proves what the protocol
guarantees on every run.

A host builds a frame (resource ID, command code, length, payload). The device reassembles it, over I2C or SPI
byte by byte, over USB and XSCOPE in one go. A resource table maps the resource ID to the task that registered it, the
task is called, and its code or data travels back.

## Structure

- `ControlTypes.dfy`: bytes, return codes, the read bit, buffers.
- `ResourceTables.dfy`: the resource table, and registration as a partial map.
- `ControlCore.dfy`: routing to tasks, the special resource, the status register, and the atomic operations
  `AtomicWrite` and `AtomicRead` with which every transport is compared.
- `I2cMachine.dfy`, `I2cTransactions.dfy`, `I2cRuns.dfy`: the I2C slave; whole transactions; every event sequence.
- `SpiMachine.dfy`, `SpiTransactions.dfy`: the SPI slave; whole transactions in any interleaving.
- `Usb.dfy`, `Xscope.dfy`: the one-shot paths and the endpoint-0 reassembly loop.
- `Frames.dfy`: the host's frame builders.
- `Commands.dfy`, `I2cHost.dfy`, `SpiHost.dfy`: host commands, sessions, and the host code driving the slave object.
- `TransportIndependence.dfy`: the same write, and the same read, on four transports.
- `DeviceRuns.dfy`: start-up, and safety over every mixed run.
- `Acknowledgement.dfy`: on each transport, exactly when the host learns the outcome of its command.

The static records, the table, the transfer buffers and the loops of the sources are classes, arrays and loops here.
Each method is proved equal to a step function on values (`OnWriteData`, `OnSupplied`, `RunUpload`, `Receive`, ...), and
the results are lemmas about those functions.

## Reading the model

- **Tasks** are an arbitrary environment: a function from the history of calls and the request to an answer. No two
  calls of a run have the same history, so every behaviour of the tasks in a run is covered, including one that depends
  on what the read buffer held before. A read answer is as long as was asked for. Results that compare several runs
  (`TransportIndependence`, and a device with its atomic performance) run the same environment in each: they assume in
  addition that a task's answer does not depend on what its read buffer held.
- **I2C bus** (NXP UM10204, sections 3.1.6 and 3.1.10): the master sends bytes until one is not acknowledged, an
  acknowledgement is a handler returning success, and a read follows by repeated start. Whether the master sends a stop
  after a refusal is left open (`stopOnNack`), and so is what the I2C host's uninitialised status variable holds (`stale`).
- **SPI bus**: any interleaving of callbacks that supplies the bytes in order, asks for at least as many, and in a
  transaction of four bytes or more asks at least once after the third. Both strict callback orders are shown to qualify.
- **USB** (USB 2.0, sections 5.5.3 and 9.3): a wait on endpoint 0 yields a packet of at most 64 bytes or a failure; a host
  that never sends again is taken to reset the bus.
- `InRange` says that the payload access of the next event lies in the 253-byte buffer. The methods require it, and
  lemmas say exactly where it holds: `AccessesInRangeIff` and `ReadAccessesInRangeIff` over I2C, `WriteInRange`,
  `HeaderInRangeIff` and `DataInRange` over SPI. The step functions are total, and mean nothing where it does not hold.

## Where the code and its documentation disagree

The model follows the code.

- Bit 7 of a command code set means read (`lib_device_control/inc/control_transport_shared.h:24`); the comments at
  `lib_device_control/api/control.h:49` say write.
- The documentation promises that the host is always informed of the outcome (`doc/rst/lib_device_control.rst:22`). No
  transport keeps this for every call. In `Acknowledgement` the lemmas ending in `Iff` give the exact condition under which
  what the host gets back is right, and those with `Lost` in their name give a freshly started device on which it is not:
  - An SPI write to an unknown resource, or with a null payload, is reported with the previous command's status:
    `SpiWriteReportIff`, `SpiLostWrites`.
  - An SPI read always returns success, with zeros for an unknown resource: `SpiReadReportIff`, `SpiLostReads`.
    A read of 256 bytes from a registered resource asks its task for none and returns zeros.
  - An I2C write with a null payload of nonzero length, or of more than 253 bytes, can be reported as success with nothing
    delivered: `I2cWriteReportIff`, `I2cLostWrite`.
  - A status read over I2C always yields success, whatever the register held: `I2cStatusReadIff`, `I2cLostStatus`.
  - A USB set whose command fails is documented as stalled; the handler returns the same result as for a success
    (`lib_device_control/adapters/transport_usb.xc:48`): `UsbSetReportIff`, `UsbWholeSetReportIff`, `UsbLostSet`.
  - Over XSCOPE an unknown resource leaves the response's code byte as it was: `XscopeCodeByteReportIff`,
    `XscopeWriteReportIff`, `XscopeLostWrite`.
  - An XSCOPE write with a null payload sends the header alone (`host/api/control_host_support.h:37`), and the device does
    not look at how much arrived (`lib_device_control/src/control.xc:458`): the task gets bytes left over in the receive
    buffer, and its success is reported: `XscopeWriteReportIff`, `XscopeLostPayload`.
- The status register after a refused write depends on the transport (`lib_device_control/src/control.xc:248`, `:396`,
  `:444`, `:594`): `TransportIndependence.TransportsAgreeIff`, `Acknowledgement.StatusDependsOnTransport`.
- XSCOPE is documented to carry 252 bytes; the builder compares the byte count with the limit in words and refuses more
  than 64 (`host/api/control_host_support.h:24`).
- A zero-length I2C header with the read bit set calls the task's write handler
  (`lib_device_control/src/control.xc:194`); `I2cTransactions.ReadHeaderWritesIff` says exactly when,
  `I2cHost.ReadCallsAreAtomicIff` which host reads are affected, and `Acknowledgement.I2cReadThatWrites` gives one.
- The SPI host neither sets nor clears the read bit, so a read call with a write code writes the caller's buffer and a
  write call with a read code reads: `SpiHost.HostReadWithWriteCode`, `SpiHost.HostWriteWithReadCode`.

## Model

| member | source | states |
|---|---|---|
| ResourceTables.ResourceTable.Init | lib_device_control/src/resource_table.xc:20-30 | every entry is free and the reserved ID is set |
| ResourceTables.ResourceTable.AddResources | lib_device_control/src/resource_table.xc:32-66 | the in-place loop computes the table and code of the functional addition |
| ResourceTables.ResourceTable.SearchTable | lib_device_control/src/resource_table.xc:68-79 | the code is 0 exactly when the lookup finds the returned interface |
| RegistrationTheorems.AddClaimsPrefix | lib_device_control/src/resource_table.xc:32-66 | an interface claims exactly its IDs before the first conflict, nothing else changes, and the code is 0 without a conflict, 3 for the reserved ID and 4 for a claimed one |
| RegistrationTheorems.RegistrationSucceedsIff | lib_device_control/src/control.xc:35-51 | registration succeeds iff there are at most 255 lists and they are duplicate-free, pairwise disjoint and avoid ID 0 |
| RegistrationTheorems.RegistrationIsMap | lib_device_control/src/resource_table.xc:68-79 | after success a nonzero ID is found on interface i iff i listed it |
| RegistrationTheorems.EachListAddsItsPrefix | lib_device_control/src/control.xc:44-48 | failed or not, and for any number of lists, each adds exactly its prefix before its own first conflict, except that the reserved interface number adds nothing |
| RegistrationTheorems.EntriesNeverOverwritten | lib_device_control/src/resource_table.xc:58-63 | first registration wins, for any number of interfaces |
| RegistrationTheorems.RegistrationRoutes | lib_device_control/src/control.xc:35-51 | every entry names an existing interface that listed the ID, even after a failure |
| ControlTypes.ReadBitIsBitSeven | lib_device_control/inc/control_transport_shared.h:24-48 | the arithmetic on command codes is the masking of the macros |
| ControlCore.Control.Init | lib_device_control/src/control.xc:29-33 | the table is initialised with the special resource reserved; nothing else changes |
| ControlCore.Control.RegisterResources | lib_device_control/src/control.xc:35-51 | the loop over interfaces computes the registration function |
| ControlCore.Control.WriteCommand | lib_device_control/src/control.xc:111-130 | the special resource is refused; otherwise one task call is made and its code becomes the status |
| ControlCore.Control.ReadCommand | lib_device_control/src/control.xc:132-148 | one task call or the special read, with the payload slice overwritten in place and the status untouched |
| ControlCore.Control.SpecialReadCommand | lib_device_control/src/control.xc:76-109 | version and last status into a one-byte payload, otherwise refusal with the payload untouched |
| ControlCore.ReadReturnsTheTasksAnswer | lib_device_control/src/control.xc:132-148 | a read of a registered resource makes one call to its task and returns the task's own code and bytes |
| ControlCore.WriteReturnsTheTasksCode | lib_device_control/src/control.xc:111-130 | a write to a registered resource makes one call to its task with the payload; the task's code is returned, recorded and the status |
| I2cMachine.I2cSlave.ProcessWriteStart | lib_device_control/src/control.xc:150-158 | a write start begins a new command from any state |
| I2cMachine.I2cSlave.ProcessWriteData | lib_device_control/src/control.xc:160-250 | the in-place handler makes the step of the machine, including the task call and the status |
| I2cMachine.I2cSlave.ProcessReadStart | lib_device_control/src/control.xc:252-284 | the in-place handler makes the step of the machine and fills the payload buffer |
| I2cMachine.I2cSlave.ProcessReadData | lib_device_control/src/control.xc:286-313 | the in-place handler makes the step, including the case where no byte is assigned |
| I2cMachine.I2cSlave.ProcessStop | lib_device_control/src/control.xc:315-367 | idle afterwards, and the verdict of the state before |
| I2cTransactions.MachineRefinesParser | lib_device_control/src/control.xc:150-250 | from any earlier state the byte-by-byte machine equals a one-shot reading of all the bytes: state, header, buffer, task calls, status, verdict |
| I2cTransactions.AccessesInRangeIff | lib_device_control/src/control.xc:203-239 | every payload access of a write transaction is in the buffer iff it is not a zero-length write command with more than 253 data bytes |
| I2cTransactions.ByteCode | lib_device_control/src/control.xc:160-250 | for every byte sequence, the code for its last byte, and so its acknowledgement; a byte that completes the declared length gets the code of its atomic write |
| I2cTransactions.WriteVerdictMatchesDelivery | lib_device_control/src/control.xc:315-342 | the stop succeeds iff enough bytes came, and then exactly the first n were delivered once; otherwise nothing was |
| I2cTransactions.StopVerdictOfWrite | lib_device_control/src/control.xc:315-367 | for every byte sequence, the verdict of a stop after it: transport error without an accepted header or with data after a read header, length error when short, else success |
| I2cTransactions.StopSucceedsIff | lib_device_control/src/control.xc:315-367 | corollary: for every byte sequence, when a stop after it is a success |
| I2cTransactions.ReadHeaderWritesIff | lib_device_control/src/control.xc:194-197 | a transaction with the read bit reaches a task's write handler iff it declares length zero, and then by one call with an empty payload |
| I2cTransactions.AfterReadHeader | lib_device_control/src/control.xc:166-202 | a read header changes the record and the status register only |
| I2cTransactions.ReadDelivery | lib_device_control/src/control.xc:252-367 | one task call; on success the first n bytes in order, then an unassigned one, and the stop verdict as a function of the bytes read |
| I2cTransactions.ReadAccessesInRangeIff | lib_device_control/src/control.xc:286-313 | after an accepted read header and read start, reading k bytes stays in the buffer iff a nonzero length was declared or k is at most 253 |
| I2cTransactions.ReadDataSucceedsIff | lib_device_control/src/control.xc:286-313 | after an accepted read of n bytes the data handler succeeds n + 1 times and then fails |
| I2cRuns.AtMostOneDeliveryPerStart | lib_device_control/src/control.xc:150-367 | over every event sequence, no more task writes and no more successful task reads than write starts |
| I2cRuns.NoCallsUntilRestart | lib_device_control/src/control.xc:241-313 | idle, failed, overflowed or reading: no task call until the next write start |
| I2cRuns.StopEndsTransaction | lib_device_control/src/control.xc:315-367 | after a stop in any state, and any events up to the next write start, no task has been called and a read start is refused |
| I2cRuns.StopOutOfPlace | lib_device_control/src/control.xc:357-361 | a stop before any accepted length byte, after a failure or after a stop is an error |
| I2cRuns.OutOfPlaceFails | lib_device_control/src/control.xc:241-313 | a byte, a read start or a read in a state that does not expect it fails with its code, calls no task and leaves the machine failed |
| I2cRuns.FailureSticks | lib_device_control/src/control.xc:241-313 | a failed machine stays failed and every handler reports an error until a stop or a write start |
| I2cRuns.CountersStayInBounds | lib_device_control/src/control.xc:184-306 | in every well-framed run the count stays within the header length, which is at most 253, and accesses within the buffer |
| SpiMachine.SpiSlave.ProcessEndsTransaction | lib_device_control/src/control.xc:492-541 | the in-place handler makes the step: delivery, rejection, or holding an answer, and the reset |
| SpiMachine.SpiSlave.ProcessRequiresData | lib_device_control/src/control.xc:543-566 | the in-place handler makes the step: the read call, an answer byte, or zero |
| SpiMachine.SpiSlave.ProcessSuppliedData | lib_device_control/src/control.xc:568-641 | the in-place handler makes the step; words that are not eight bits are refused with nothing changed |
| SpiTransactions.WritePhase | lib_device_control/src/control.xc:568-641 | whatever the interleaving, the record after any bytes that begin no read is a one-shot reading of them |
| SpiTransactions.WriteIsAllOrNothing | lib_device_control/src/control.xc:492-641 | a transaction is one atomic write iff its payload has exactly the declared length and fits, else nothing changes and an error is reported for a short payload only; idle afterwards |
| SpiTransactions.SuppliedCode | lib_device_control/src/control.xc:568-641 | in a transaction that begins no read the code for a supplied byte is an error iff it names an unknown resource or is the first past the declared length or the buffer |
| SpiTransactions.WriteCalledIff | lib_device_control/src/control.xc:506-517 | the task is called iff so, once, with exactly those bytes |
| SpiTransactions.HeaderTransactionReads | lib_device_control/src/control.xc:530-554 | a padded read header runs the read once iff a byte is requested after the length |
| SpiTransactions.RequestCode | lib_device_control/src/control.xc:543-566 | in the header transaction of a read the code for a request is the read's own for the first one after the length, else success |
| SpiTransactions.DataTransactionAnswers | lib_device_control/src/control.xc:556-562 | request k of the next transaction gets payload byte k, then zeros, for all bytes and interleavings; then idle |
| SpiTransactions.DataCodes | lib_device_control/src/control.xc:543-641 | no handler reports an error in a data transaction |
| SpiTransactions.WaitingRestarts | lib_device_control/src/control.xc:586-589 | a nonzero byte while an answer waits restarts the machine as if idle |
| SpiTransactions.Resynchronises | lib_device_control/src/control.xc:492-541 | from any record one of the next two transaction boundaries is idle with every field zero |
| SpiTransactions.CountersStayInBounds | lib_device_control/src/control.xc:556-637 | in every run the count is zero before the data phases and within the declared length and the buffer in them |
| SpiTransactions.WriteInRange | lib_device_control/src/control.xc:568-641 | no transaction that begins no read leaves the buffer, whatever the interleaving |
| SpiTransactions.HeaderInRangeIff | lib_device_control/src/control.xc:543-554 | a padded read header of a known resource stays in the buffer iff its length is at most 253 or no byte is requested after it |
| SpiTransactions.DataInRange | lib_device_control/src/control.xc:556-562 | no data transaction leaves the buffer |
| Usb.ProcessSetRequest | lib_device_control/src/control.xc:369-398 | refusal of unknown or read commands, otherwise the write; the status is the result |
| Usb.ProcessGetRequest | lib_device_control/src/control.xc:400-425 | refusal of unknown or write commands, otherwise the read into the request buffer |
| Usb.Ep0Receive | lib_device_control/adapters/transport_usb.xc:23-36 | the loop terminates inside the 256-byte buffer and leaves the packets it took in order |
| Usb.H2DVendorRequest | lib_device_control/adapters/transport_usb.xc:39-55 | guard, reception, set request and status stage as one function of the transfer |
| Usb.D2HVendorRequest | lib_device_control/adapters/transport_usb.xc:58-67 | guard and get request; an answer is sent iff the command succeeded |
| Usb.RequestsAreAtomic | lib_device_control/src/control.xc:369-425 | a set is the atomic write and a get the atomic read of known resources with the matching code; any other is refused without a call, the set recorded and the get's buffer untouched |
| Usb.AbortedSetIsInert | lib_device_control/adapters/transport_usb.xc:39-55 | a set request for another handler, too long or not received runs no command and is not okay; the bus result is returned |
| Usb.ReceiveConcatenates | lib_device_control/adapters/transport_usb.xc:28-34 | the bytes are the concatenation of the packets taken from the front, and pass the announced length by less than a packet |
| Usb.ReceiveStaysInBuffer | lib_device_control/adapters/transport_usb.xc:28-34 | for lengths up to 256 reception never passes byte 256 |
| Usb.ReassemblyUndoesSplitting | lib_device_control/adapters/transport_usb.xc:28-34 | splitting a payload of any length into packets and receiving it restores it and leaves later packets |
| Usb.SplitPayloadIsDelivered | lib_device_control/adapters/transport_usb.xc:39-55 | a split payload of up to 256 bytes is set whole, whatever the buffer held; the result is the status stage's after success and okay after a failed command |
| Usb.ReceivesWholeIff | lib_device_control/adapters/transport_usb.xc:28-34 | reception ends well with the announced length iff the leading full packets reach it or the packet after them completes it |
| Usb.ReceptionResult | lib_device_control/adapters/transport_usb.xc:28-36 | how reception ends, over the packets: well, or by the failure after the leading full ones |
| Usb.HandlerSeesOnlyReceivedBytesIff | lib_device_control/adapters/transport_usb.xc:48-49 | when reception ends well, the handler sees only received bytes iff the packets cover the announced length in that sense |
| Xscope.ProcessUpload | lib_device_control/src/control.xc:427-463 | the response is written over the request, in place |
| Xscope.ResponseAnswersRequest | lib_device_control/src/control.xc:442-462 | the header bytes stay, byte 3 is the result, data follows iff a read succeeded, and the effect is the atomic operation |
| Xscope.CodeByteIsResultIff | lib_device_control/src/control.xc:444-447 | corollary: the response's code byte is the result iff the resource is known or the byte already said so |
| Xscope.BuiltFrameIsAtomicWrite | host/api/control_host_support.h:14-45 | a built frame of at most 64 payload bytes is one atomic write of the host's exact payload |
| Xscope.NullPayloadWritesLeftover | host/api/control_host_support.h:37-44 | a write frame built from a null payload is one atomic write of the declared number of bytes left in the device's buffer |
| Frames.BuildI2cData | host/api/control_host_support.h:88-112 | the frame, its size and the untouched rest of the buffer; nothing for null or more than 253 bytes |
| Frames.BuildSpiData | host/api/control_host_support.h:58-86 | the frame or the zero-padded header, its size and the untouched rest of the buffer |
| Frames.XscopeCreateUploadBuffer | host/api/control_host_support.h:14-45 | refusal iff null or more than 64 bytes, otherwise the frame with the padding byte untouched |
| Frames.ReadFramesIgnorePayload | host/api/control_host_support.h:37-100 | the three frames of a read do not depend on the caller's buffer |
| Frames.UsbFillHeader | host/api/control_host_support.h:47-56 | the setup fields from which the device recovers resource, command and length |
| Commands.PerformedCalls | lib_device_control/src/control.xc:111-148 | performing commands on registered resources makes one call each, in order, answered as reported |
| SpiHost.HostReadOutcome | host/src/device_access_spi_rpi.c:66-88 | over any bus every read that fits host and device is one atomic read of the length on the wire (zero for 256), its bytes followed by zeros |
| SpiHost.HostReadIsAtomic | host/src/device_access_spi_rpi.c:66-88 | over any bus a host read is one atomic read and returns its bytes, always with success; the device is idle again |
| SpiHost.HostReadWithWriteCode | host/src/device_access_spi_rpi.c:66-88 | a read call with a write code is one atomic write of the caller's buffer and returns zeros with success |
| SpiHost.HostWriteOutcome | host/src/device_access_spi_rpi.c:46-64 | over any bus, for every payload and length whose frame fits: one atomic write of the announced payload iff the frame delivers it, else nothing; the status register afterwards is returned |
| SpiHost.HostWriteIsAtomic | host/src/device_access_spi_rpi.c:46-64 | over any bus a host write is one atomic write and returns the status register; the device is idle again |
| SpiHost.HostWriteWithReadCode | host/src/device_access_spi_rpi.c:46-64 | a write call with a read code to a known resource is one atomic read, reported as success; otherwise nothing happens and the old status is returned |
| SpiHost.NullPayloadDeliveredIff | host/api/control_host_support.h:73-79 | for every length: with a null payload a task is called iff the length is five and the resource is a registered one, and then with five zeros |
| SpiHost.ReadCallInRangeIff | lib_device_control/src/control.xc:547-554 | both transactions of a read call stay in the device's buffer iff it is not a read of 254 or 255 bytes of a known resource |
| SpiHost.WriteCallInRangeIff | lib_device_control/src/control.xc:547-554 | all three transactions of a write call stay in it under the same condition |
| SpiHost.VersionQuery | host/src/device_access_spi_rpi.c:90-97 | the version query returns the version and calls no task |
| SpiHost.ReadEndsAtRest | host/src/device_access_spi_rpi.c:66-88 | every read call, from any record of the device, leaves it idle with every field zero |
| SpiHost.WriteEndsAtRest | host/src/device_access_spi_rpi.c:46-64 | so does every write call |
| SpiHost.SessionIsAtomic | host/src/device_access_spi_rpi.c:46-88 | a session of any length, over any bus and all resource IDs, is the atomic performance of its commands, with every report determined |
| SpiHost.SessionSettles | host/src/device_access_spi_rpi.c:46-88 | from any record of the device a session is atomic from its second call on |
| SpiHost.SessionTrace | host/src/device_access_spi_rpi.c:46-88 | on registered resources the task calls are exactly the commands in order and every report is the task's own answer |
| SpiHostDriver.BothOrdersAreGood | lib_device_control/adapters/transport_spi.xc:17-34 | both callback orders are buses that the session results cover |
| SpiHostDriver.TransferN | lib_device_control/adapters/transport_spi.xc:17-34 | the in-place full-duplex transfer is the run of its events, and received bytes replace sent ones |
| SpiHostDriver.ControlReadCommand | host/src/device_access_spi_rpi.c:66-88 | for every command code, from any record: the two transactions over one reused buffer are the host read, and its bytes land in the caller's payload |
| SpiHostDriver.ControlWriteCommand | host/src/device_access_spi_rpi.c:46-64 | for every command code, payload and length whose frame fits, from any record: the write and the status read over the slave are the host write |
| I2cHost.WriteFrameIsAtomic | lib_device_control/adapters/transport_i2c.xc:22-43 | a write frame over the bus is one atomic write, acknowledged iff it succeeds |
| I2cHost.HostReadIsAtomic | host/src/device_access_i2c_xcore.xc:61-106 | from any record and for every length: one atomic read within the buffer (a status read always reports success), an error with no call above 253, an empty write and then an empty read for zero |
| I2cHost.ReadCallsAreAtomicIff | host/src/device_access_i2c_xcore.xc:61-106 | a read call makes the task calls of the atomic read iff its length is 1 to 253 or the resource is unknown or special |
| I2cHost.HostWriteIsAtomic | host/src/device_access_i2c_xcore.xc:24-59 | from any record a host write whose frame carries what was announced is one atomic write and returns success iff it succeeds |
| I2cHost.IncompleteWriteReportsSuccessIff | host/src/device_access_i2c_xcore.xc:35-58 | with a null payload of nonzero length or more than 253 bytes nothing is delivered, and success is returned iff the resource is known or the length above 253 |
| I2cHost.OversizedReadIsRefused | host/src/device_access_i2c_xcore.xc:71-92 | corollary: a read of more than 253 bytes returns an error and calls no task |
| I2cHost.ReadEndsIdleIff | host/src/device_access_i2c_xcore.xc:61-106 | a read call leaves the device idle iff it succeeds or the master stops after refusals |
| I2cHost.WriteEndsIdle | host/src/device_access_i2c_xcore.xc:24-59 | every write call leaves the device idle |
| I2cHost.VersionQuery | host/src/device_access_i2c_xcore.xc:108-116 | the version query returns the version and calls no task |
| I2cHost.SessionIsAtomic | host/src/device_access_i2c_xcore.xc:24-106 | a session of any length, for all resource IDs, makes the task calls of its commands performed atomically, with faithful reports |
| I2cHost.SessionTrace | host/src/device_access_i2c_xcore.xc:24-106 | on registered resources the task calls are exactly the commands in order, success is reported iff the task succeeded, and reads return its bytes |
| I2cHostDriver.AckWriteRequest | lib_device_control/adapters/transport_i2c.xc:22-28 | a write request is always acknowledged |
| I2cHostDriver.AckReadRequest | lib_device_control/adapters/transport_i2c.xc:30-35 | a read request is acknowledged iff the read start succeeds |
| I2cHostDriver.MasterSentData | lib_device_control/adapters/transport_i2c.xc:37-43 | a byte is acknowledged iff its handler succeeds |
| I2cHostDriver.BusWrite | lib_device_control/adapters/transport_i2c.xc:18-50 | the byte loop over the slave is the write transfer, for every transaction that does not overrun |
| I2cHostDriver.BusRead | lib_device_control/adapters/transport_i2c.xc:30-49 | the byte loop over the slave is the read transfer |
| I2cHostDriver.ControlReadCommand | host/src/device_access_i2c_xcore.xc:61-106 | for every length: the call over the slave is the host read, and the payload is written iff it succeeds |
| I2cHostDriver.ControlWriteCommand | host/src/device_access_i2c_xcore.xc:24-59 | the call over the slave is the host write, for every payload and length |
| TransportIndependence.TransportsMakeTheSameCalls | lib_device_control/src/control.xc:160-641 | for every resource ID and write command, I2C, SPI and USB up to 253 bytes and XSCOPE up to 64 make the same task calls |
| TransportIndependence.TransportsAgreeIff | lib_device_control/src/control.xc:160-641 | they leave the same status too, iff the resource is known or the status already says refused; SPI and XSCOPE always do |
| TransportIndependence.EachTransport | lib_device_control/src/control.xc:160-641 | each transport's effect is the atomic write; I2C and USB record the refusal of an unknown resource, SPI and XSCOPE do not |
| TransportIndependence.ReadsMakeTheSameCalls | lib_device_control/src/control.xc:132-641 | for every resource ID, read command and nonzero length, I2C, SPI and USB up to 253 bytes and XSCOPE up to 64 make the same task calls; all but SPI succeed iff the read does, SPI always; after success the bytes are the same but for a status read over I2C |
| TransportIndependence.ReadsAgreeIff | lib_device_control/src/control.xc:132-641 | they return the same code and bytes iff the read succeeds and, if of the status, finds success |
| DeviceRuns.Boot | lib_device_control/src/control.xc:29-51 | the statics, initialisation and registration give the start state of every run |
| DeviceRuns.RoutingIsSafe | lib_device_control/src/control.xc:111-148 | in every run of every transport each task call goes to an existing interface that listed the resource, never for ID 0 or interface 255, and the read bit matches but for an empty write |
| DeviceRuns.AnswersAreGenuine | lib_device_control/src/control.xc:111-148 | in every run of every transport each recorded code and byte is the one the tasks gave to that request after the calls before it, and an event makes at most one call |
| DeviceRuns.StatusIsLastVerdict | lib_device_control/src/control.xc:128-463 | after every run the status register holds the code of the last write handled (over I2C, of the last byte); nothing else changes it |
| DeviceRuns.StatusReadBack | lib_device_control/src/control.xc:92-104 | a one-byte status read after any run returns exactly it and changes nothing |
| DeviceRuns.SpecialResourceIsInternal | lib_device_control/src/control.xc:76-140 | corollary: the special resource refuses writes and answers exactly the two one-byte reads, without a task call |
| DeviceRuns.TableNeverChanges | lib_device_control/src/resource_table.xc:12 | no event after registration changes the table |
| Acknowledgement.SpiWriteReportIff | host/src/device_access_spi_rpi.c:46-64 | an SPI write returns success iff it was made as announced and accepted, exactly when it delivers to a known resource or the previous status is not success; no accepted write is reported as failed |
| Acknowledgement.SpiLostWrites | host/src/device_access_spi_rpi.c:46-64 | on a freshly started device two writes that reach no task are reported as success |
| Acknowledgement.SpiReadReportIff | host/src/device_access_spi_rpi.c:66-88 | for every read call that fits both buffers the result and the task calls are those of the read asked for iff its length is not 256 and it is one of the two special reads or the resource is known and its task answers success; up to 253 the bytes always are the atomic read's |
| Acknowledgement.SpiLostReads | host/src/device_access_spi_rpi.c:66-88 | on a freshly started device an unknown resource reads as zeros with success, and a registered one asked for 256 bytes does too |
| Acknowledgement.I2cWriteReportIff | host/src/device_access_i2c_xcore.xc:24-59 | for every payload and length an I2C write returns success iff it was made as announced and accepted, exactly when the frame is complete or its header names an unknown resource |
| Acknowledgement.I2cLostWrite | host/src/device_access_i2c_xcore.xc:24-59 | on a freshly started device a write with a null payload reaches no task and is reported as success |
| Acknowledgement.I2cStatusReadIff | lib_device_control/src/control.xc:160-250 | a status read over I2C returns the register iff it holds success, because the header's own bytes overwrite it |
| Acknowledgement.I2cLostStatus | lib_device_control/src/control.xc:160-250 | after a refused write on a freshly started device the register says refused and the status read yields success |
| Acknowledgement.I2cReadThatWrites | lib_device_control/src/control.xc:194-197 | on a freshly started device a read of length zero calls the task's write handler with a read code |
| Acknowledgement.UsbSetReportIff | lib_device_control/adapters/transport_usb.xc:39-55 | for every request and every arriving transfer the handler's result separates acceptance from refusal iff the command was never reached, or it was accepted and the status stage succeeds |
| Acknowledgement.UsbWholeSetReportIff | lib_device_control/adapters/transport_usb.xc:39-55 | for a payload received whole, iff it was accepted and the status stage succeeds, in terms of the resource, the command and the task's answer |
| Acknowledgement.UsbLostSet | lib_device_control/adapters/transport_usb.xc:39-55 | on a freshly started device a set of an unknown resource gets the result of a success |
| Acknowledgement.XscopeCodeByteReportIff | lib_device_control/src/control.xc:442-462 | the response's code byte separates success from failure iff the resource is known or the byte was nonzero |
| Acknowledgement.XscopeWriteReportIff | host/api/control_host_support.h:14-45 | for every write frame the host builds, null payloads included, the code byte is success iff the write was made as announced and accepted, exactly when: for an unknown resource, the host's unset padding byte is nonzero; for a known one, it is the special resource, the task gets the announced bytes, or it refuses the leftover ones |
| Acknowledgement.XscopeLostWrite | lib_device_control/src/control.xc:442-447 | on a freshly started device a write to an unknown resource is answered with success |
| Acknowledgement.XscopeLostPayload | host/api/control_host_support.h:37-44 | on a freshly started device with an accepting task a null payload delivers a leftover byte and is answered with success |
| Acknowledgement.StatusDependsOnTransport | lib_device_control/src/control.xc:160-641 | on a freshly started device a refused write is in the status register over I2C and USB, but not over SPI |

## Left out

- The internals of lib_i2c, lib_spi and lib_xud, ports, clocks, tiles and channels are not part of this model; their
  callback order and acknowledgement rule are the bus assumptions above.
- Device open and close, delays, printing and debug hooks, the command counter and the slave address of the I2C host,
  and the SPI mode mapping of the Raspberry Pi host carry no protocol content.
- The USB, XSCOPE and Raspberry Pi I2C host files are plumbing over libraries whose code is not part of this model.
- USB descriptors, standard requests and DFU headers.
- Use of the resource table before initialisation, and re-initialisation in mid-transaction.
- SPI words carry a byte: the model takes an eight-bit word to be below 256, which the slave library is configured for.
- The SPI count after a payload error is unbounded; the 32-bit wrap-around there reaches nothing but a debug message.
- What XC does on an access outside the payload buffer: the methods require `InRange` instead, and the lemmas say when
  it holds. SPI read headers above 253, SPI write frames of 254 to 256 bytes and XSCOPE lengths above the buffer are
  outside it.
- SpiHost.HostReadOutcome: for a known resource lengths 254 and 255 are outside the device's buffer, and longer reads
  than 256 outside the host's own.
- SpiHostDriver.ControlReadCommand: lengths end at the 256 bytes of the host's own buffer, and at the 253 its frame holds
  when the code has no read bit; the access condition in its `requires` is made explicit by `SpiHost.ReadCallInRangeIff`.
- SpiHostDriver.ControlWriteCommand: payloads of 254 to 256 bytes leave the host's frame; the access condition in its
  `requires` is made explicit by `SpiHost.WriteCallInRangeIff`.
