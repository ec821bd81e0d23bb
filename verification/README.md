# Verified models of the BK7231N SDK

Dafny models of the self-contained algorithms and protocol machines inside the BK7231N vendor SDK, with proofs of what
they are for. Check everything with `dafny verify dfyconfig.toml`.

The models keep the form of the C code. Drivers and queues are classes whose fields the methods update, in-place
algorithms work on arrays, loops are loops. Each such method is tied to a function on values (an effect on flash, a
step of a state machine, a list or a queue), and the promises are proved about that function for all inputs and all
runs.

| file | what it models |
|---|---|
| `Bits.dfy`, `Ring.dfy`, `SectorStream.dfy` | shared vocabulary: 32-bit words, bytes in a ring, a stream appended to flash sector by sector |
| `Flash.dfy` | the NOR flash driver: 32-byte page programming under byte-granular reads and writes |
| `Ota.dfy` | `store_block`: erase, write, CRC, header commit, over whole images |
| `HttpFlash.dfy` | the HTTP download writer, raw and OTA format, over any split of the stream |
| `Tftp.dfy`, `TftpPacket.dfy` | the TFTP client against a lock-step server over a lossy network, and its wire format |
| `RingBuffer.dfy`, `RingDmaWrite.dfy`, `RingDmaRead.dfy` | the audio rings: CPU against CPU, and CPU against a DMA channel that runs between any two bytes |
| `Kfifo.dfy`, `Sfifo.dfy` | the free-running-counter queue, and the FTP server's queue feeding `tcp_write` |
| `AdcMedian.dfy` | the median filter over a min-heap |
| `Airkiss.dfy` | channel selection inside the array still being scanned |
| `I2c1.dfy`, `I2c2.dfy` | the two interrupt-driven I2C masters and their bus traffic |
| `DoublyList.dfy` | the intrusive circular list |
| `Base64.dfy` | the Base64 accumulator and the buffers of Basic authentication |
| `RxCredit.dfy` | the credit between RX interrupt, message queue and core thread |
| `TlvSearch.dfy` | the nested type-length-value search of the drone configuration |

## Assumptions about the surroundings

- Flash: programming ANDs bits in, a sector erase sets 4096 bytes to 0xFF; the chip has whole sectors, at most 2^24
  bytes and, for the image writers, at least 2 MiB.
- DMA: a channel stores or takes one byte at a time, loops over the buffer, and halts when its pointer equals its pause
  address. It may move between any two bytes the CPU copies.
- I2C devices answer to seven address bits, take a register number and count on from there; one that is not acknowledged
  lets go of the bus. The controllers raise one interrupt a byte (I2C1) or when the mode's free places or received
  bytes are there (I2C2), and clear their STOP bit by themselves.
- TFTP: a lock-step server (sections 2 and 5 of RFC 1350, optionally the OACK of RFC 2347) on one port, a file of fewer
  than 65536 blocks of 1 to 65535 bytes, FIFO channels that may lose and duplicate. An OACK has at most 1600 bytes. Other
  hosts may send anything once the server has answered, and until then nothing the client acts on. The handler and the
  timer callback do not interrupt each other.
- `co_crc32` is the fold of some byte step; nothing depends on which.
- `char` is unsigned, as on the chip's ABI.

## Where the code falls short of the obvious claim

Each item is proved in the exact form given.

- `rb_write` and `rb_write_dma_read` compare against `size + 4` in 32 bits: for the four largest sizes the test passes
  though the data does not fit (`RingBuffer.AdmitsIff`).
- `sfifo_init` ends if and only if the size is below 2^30 (`Sfifo.InitTerminates`).
- A raw HTTP download stores the first 0x101000 bytes; the rest is dropped without an error. A stream of that length or
  more, exactly that length included, also erases the sector at the write limit. The whole stream is in flash if and
  only if it is no longer than that, or its rest is what flash holds there anyway (`HttpFlash.WholeIff`); streams that
  are lost exist (`HttpFlash.LostStream`).
- The TFTP retry budget is per transfer and only matters before the first answer; a transfer can complete if and only if
  the request is not lost for good (`Tftp.CompletionIff`).
- The client asks for 1048-byte blocks but accepts any size an OACK names, and receives into 1600 bytes. From blocks
  larger than 1596 bytes it keeps the first 1596, takes that for the short last block and stops with success: it stops
  with the whole file if and only if the block size or the file is at most 1596 bytes (`Tftp.ExactlyOnce`,
  `Tftp.CutShort`).
- The calls of a finished TFTP transfer are the packets of the image if and only if the blocks have the packets' size
  and the last one is short, or the image is one packet shorter than a block (`Tftp.CallsIff`). A server without options
  leaves the client at 512 bytes; there `store_block` takes pieces of packets for headers, and a transfer that succeeds
  leaves flash without the image (`Tftp.PlainServer`).
- An image whose last packet is a full one makes the final flush of an HTTP download, and the empty last block of a TFTP
  transfer, call `store_block` without even a header; for every other well-formed image all calls are within what it can
  take (`HttpFlash.FlushIff`, `Tftp.DownloadIff`). Such images exist (`HttpFlash.FullImageFlushed`,
  `Tftp.FullImageSent`).
- An I2C1 transfer keeps its 32-bit count in a 16-bit field. A write sends the count modulo 65536 bytes and reports
  success, so it is the write asked for if and only if the count is below 65536 (`I2c1.Master.Write`); a read of no bytes
  stores 65536, and reads are exact if and only if 1 <= count <= 65536 (`I2c1.Master.Read`, `I2c1.TakenExact`).
- An I2C1 read whose repeated-START address is refused reports success with the buffer untouched (`I2c1.Master.Read`).
- An I2C2 write sends the count modulo 256 bytes; an I2C2 read of no bytes stores 256, and reads are exact if and only
  if 1 <= count < 256 + the first batch (`I2c2.WriteDelivers`, `I2c2.ReadDelivers`).
- A frame whose push onto the full message queue fails keeps its credit for ever: after two such failures no frame is
  received again (`RxCredit.ReceptionDies`). It happens when other messages fill the queue first (`RxCredit.Dies`).
- `search_by_type` need not end: it ends if and only if no head is read twice, and then within as many steps as the end
  address says (`TlvSearch.EndsIff`). Two heads that lead to each other are an input on which it does not
  (`TlvSearch.NeverEnds`). It ends whenever every head read sends it forward (`TlvSearch.ForwardEnds`,
  `TlvSearch.ForwardIff`), as stored classes do (`TlvSearch.SearchFinds`), and with an erased class head or an erased
  class behind its head (`TlvSearch.Erased`, `TlvSearch.ErasedClass`).

## Model

| member | source | states |
|---|---|---|
| `Flash.Device.ReadData` | beken_os/beken378/driver/flash/flash.c:468-511 | for any alignment, length and address the buffer holds the flash bytes from the address on, as far as the chip goes (past it anything); flash and the rest of the buffer stay |
| `Flash.Device.WriteData` | beken_os/beken378/driver/flash/flash.c:513-572 | a refused write changes nothing; any other makes each byte in range old AND new and leaves every byte outside, across unaligned heads, full pages and partial tails |
| `Flash.FillPage` | beken_os/beken378/driver/flash/flash.c:546-553 | one pass of the copy loop overlays exactly the bytes of this page and stops at the page end or when the data is out |
| `Flash.Device.WritePage` | beken_os/beken378/driver/flash/flash.c:539-571 | one pass moves the written prefix to the end of the page and leaves the page buffer ready for the next |
| `Flash.Device.EraseSector` | beken_os/beken378/driver/flash/flash.c:430-452 | the erase command has the effect of Erase, and an address past the chip none |
| `Flash.ProgramPadded` | beken_os/beken378/driver/flash/flash.c:529-571 | padding a page with its own contents or with 0xFF programs the same cells as writing only the bytes between |
| `Flash.ProgramAppend` | beken_os/beken378/driver/flash/flash.c:513-572 | two adjacent writes are one write |
| `Flash.ProgramBlank` | beken_os/beken378/driver/flash/flash.c:513-572 | on blank cells a write stores the data itself |
| `Flash.ProgramBit` | beken_os/beken378/driver/flash/flash.c:513-572 | bit by bit: a bit is set after programming exactly when it was set before and is set in the data |
| `Flash.EraseBits` | beken_os/beken378/driver/flash/flash.c:430-452 | an erase takes the 4096 bytes around the address and looks at 24 address bits only |
| `Flash.GuardIs` | beken_os/beken378/driver/flash/flash.c:521-527 | writes on the chip are accepted; of those that end past it exactly the ones that would fit if they began at their page are |
| `Flash.EraseWriteRead` | beken_os/beken378/driver/flash/flash.c:430-572 | erase some sectors, write anywhere inside them, read back: the same bytes, and nothing outside the sectors changed |
| `Flash.EraseWriteBack` | beken_os/beken378/driver/flash/flash.c:430-572 | the same on the device: flash_erase_sector, flash_write_data and flash_read_data one after the other return the bytes written, and nothing outside the sectors changed |
| `SectorStream.StoreNext` | beken_os/beken378/app/http/utils_httpc.c:441-478 | a stream appended in 1024-byte blocks with each sector erased when its first byte arrives: every block finds its cells blank, so the whole stream stands in flash and nothing outside the erased sectors changed |
| `SectorStream.BlockInSector` | beken_os/beken378/app/http/utils_httpc.c:441-461 | a 1024-byte block at a 1024-aligned address never leaves the sector erased for it |
| `Ota.FoldAppend` | beken_os/beken378/app/tftp/tftpclient.c:535-541 | the CRC of a concatenation continues the CRC of its first part, so the register carried over packets is one fold |
| `Ota.FoldOne` | beken_os/beken378/app/tftp/tftpclient.c:535-541 | a fold over one byte is one step |
| `Ota.Updater.StoreBlock` | beken_os/beken378/app/tftp/tftpclient.c:464-568 | one call: erase on a sector start, the address window, the payload write, the CRC over the packet or up to its trailer, and the header commit have exactly the effect of Store |
| `Ota.Updater.WriteAndCompare` | beken_os/beken378/app/tftp/tftpclient.c:514-528 | the payload is programmed, unless the driver refuses it, and on the chip the read-back comparison succeeds exactly when flash holds the payload |
| `Ota.Updater.CommitHead` | beken_os/beken378/app/tftp/tftpclient.c:545-554 | the header sector is erased and the image header written with status 1 |
| `Ota.FullStep` | beken_os/beken378/app/tftp/tftpclient.c:490-541 | a full packet behind full packets: its payload is stored right behind the others and the CRC covers every byte seen |
| `Ota.PrefixRun` | beken_os/beken378/app/tftp/tftpclient.c:464-541 | after any number of full packets flash holds the concatenated payloads and the CRC register the fold over all packet bytes |
| `Ota.LastStep` | beken_os/beken378/app/tftp/tftpclient.c:537-566 | the last packet: payload stored, CRC over everything but the trailer, header written exactly when that equals the trailer |
| `Ota.Committed` | beken_os/beken378/app/tftp/tftpclient.c:545-554 | committing the header rewrites its own sector and nothing else |
| `Ota.HeadBeside` | beken_os/beken378/app/tftp/tftpclient.c:545-554 | the committed header leaves the stored image as it is; an uncommitted header sector is as before |
| `Ota.ImageRun` | beken_os/beken378/app/tftp/tftpclient.c:464-568 | store_block over a whole well-formed image, from any flash contents, with every byte of flash fixed: the concatenated payloads, blanks to the end of their last sector, the header with status 1 in an otherwise blank sector if and only if the fold over everything but the trailer equals the trailer, and everywhere else the old contents; the CRC register is the fold |
| `Ota.DeliveredPieces` | beken_os/beken378/app/tftp/tftpclient.c:464-568 | the same in whole pieces: where the image and where the header stand |
| `Ota.ImageBytes` | beken_os/beken378/app/tftp/tftpclient.c:464-568 | in packet bytes: the packet whose two sequence numbers agree is the last one; the payloads stand from the address in the first packet on; when the fold is the trailer, the 32 bytes at the header address of the last packet are HeaderOf |
| `Ota.ImageHeadBytes` | beken_os/beken378/app/tftp/tftpclient.c:545-554 | the header committed, field by field from the bytes of the packet: image address, total length, execution address, boot image address, header address, trailer, the word 1, nothing |
| `Ota.PayloadAt` | beken_os/beken378/app/tftp/tftpclient.c:514-516 | what stands behind the 24-byte header of packet i is payload from 1024 * i on |
| `Ota.SameWord` | beken_os/beken378/app/tftp/tftpclient.c:545-554 | words go into flash byte for byte as they came |
| `Ota.RefusedRun` | beken_os/beken378/app/tftp/tftpclient.c:490-511 | packets whose first one names an address outside the write window store nothing, however many come; at most the sector of that address is erased |
| `Ota.FullImage` | beken_os/beken378/app/tftp/tftpclient.c:464-568 | a well-formed image whose only packet is a full one |
| `Ota.Misplaced` | beken_os/beken378/app/tftp/tftpclient.c:464-568 | a well-formed one-packet image cut in two at byte 512: store_block takes both calls, takes the first 24 bytes of the second for a header, and flash does not hold the image |
| `Ota.ImagePieces` | beken_os/beken378/app/tftp/tftpclient.c:464-568 | the full packets of the bytes of an image are its packets and the remainder is the last one |
| `Ota.PacketsOfBytes` | beken_os/beken378/app/http/utils_httpc.c:529-554 | cutting the concatenation of full packets into packet-sized blocks gives the packets back |
| `Ota.ImageCut` | beken_os/beken378/app/http/utils_httpc.c:529-554 | and store_block can take them one by one |
| `HttpFlash.DirectStep` | beken_os/beken378/app/http/utils_httpc.c:435-480 | one block of a raw download, the last one short or empty: every byte of flash afterwards is fixed, and the driver never refuses the write |
| `HttpFlash.StepInside` | beken_os/beken378/app/http/utils_httpc.c:435-480 | below the write limit the block stands right behind the others, its sector erased when its first byte arrives |
| `HttpFlash.StepPast` | beken_os/beken378/app/http/utils_httpc.c:441-456 | at the write limit only the sector there is erased, again with every block, an empty one too |
| `HttpFlash.Writer.constructor` | beken_os/beken378/app/http/utils_httpc.c:483-515 | after http_flash_init nothing has been received and the invariant holds for any flash contents |
| `HttpFlash.Writer.FlashWr` | beken_os/beken378/app/http/utils_httpc.c:435-480 | http_flash_wr has exactly the effect of DirectWrite, the refusals of its own window and of the driver included |
| `HttpFlash.Writer.FlushFull` | beken_os/beken378/app/http/utils_httpc.c:542-552 | a full buffer goes out as one block, in either format, and nothing of the stream is lost |
| `HttpFlash.Writer.WrToFlash` | beken_os/beken378/app/http/utils_httpc.c:529-554 | whatever the length of the call, exactly its bytes are appended to the stream received |
| `HttpFlash.Writer.FinishDirect` | beken_os/beken378/app/http/utils_httpc.c:745-751 | the final flush of a raw download, also of no bytes: every byte of flash is the stream up to the write limit, blank to the end of the last sector reached, and elsewhere as before |
| `HttpFlash.Writer.FinishOta` | beken_os/beken378/app/http/utils_httpc.c:745-748 | the final flush in OTA format is one more store_block call, with the remainder |
| `HttpFlash.RunsNext` | beken_os/beken378/app/http/utils_httpc.c:542-551 | each block sent to store_block extends the run of the previous ones |
| `HttpFlash.DownloadDirect` | beken_os/beken378/app/http/utils_httpc.c:483-554 | from any flash contents and for any split of a stream into calls, flash is the stream from 0xff000 up to 0x200000, blank to the end of the last sector reached (the one at 0x200000 for streams of 0x101000 bytes and more), and every other byte is as before |
| `HttpFlash.WholeIff` | beken_os/beken378/app/http/utils_httpc.c:455-456 | the whole stream is in flash exactly when it is at most 0x101000 bytes long or the rest of it is what the erased sector and the old contents behind it already hold |
| `HttpFlash.RawBytes` | beken_os/beken378/app/http/utils_httpc.c:435-554 | the same in numbers: which addresses hold the stream, which are blank, and which are as before |
| `HttpFlash.LostStream` | beken_os/beken378/app/http/utils_httpc.c:455-456 | zeros beyond that length are lost whatever flash held |
| `HttpFlash.DownloadOta` | beken_os/beken378/app/http/utils_httpc.c:529-554 | for any split of an image stream into calls store_block ends up having delivered the image |
| `HttpFlash.LastBlock` | beken_os/beken378/app/http/utils_httpc.c:745-748 | what is left in the buffer at the end is the last packet |
| `HttpFlash.FlushIff` | beken_os/beken378/app/http/utils_httpc.c:745-748 | the final flush of a well-formed image is something store_block can take if and only if the last packet is not a full one |
| `HttpFlash.FullImageFlushed` | beken_os/beken378/app/http/utils_httpc.c:745-748 | a well-formed image with a full last packet exists, and its flush hands store_block nothing at all |
| `Tftp.TftpClient.TftpSend` | beken_os/beken378/app/tftp/tftpclient.c:65-140 | requests before the first answer, afterwards acknowledges the current block |
| `Tftp.TftpClient.TftpHandler` | beken_os/beken378/app/tftp/tftpclient.c:160-315 | one packet: port check, OACK, first data packet, duplicate, new block and end of file have exactly the effect of Handle |
| `Tftp.TftpClient.TftpTimeout` | beken_os/beken378/app/tftp/tftpclient.c:317-334 | a timeout counts and resends, up to ten times |
| `Tftp.HandleInv` | beken_os/beken378/app/tftp/tftpclient.c:197-307 | a packet the client expects is stored once, acknowledged and moves it on; one it has seen is acknowledged again and changes nothing |
| `Tftp.BlockLength` | beken_os/beken378/app/tftp/tftpclient.c:298-306 | only the last block of a file is shorter than the block size, which is how the client knows the end |
| `Tftp.StepInv` | beken_os/beken378/app/tftp/tftpclient.c:160-334 | every event of client, server and network, stray packets included, keeps the system invariant |
| `Tftp.StrayInv` | beken_os/beken378/app/tftp/tftpclient.c:169-173 | packets the client does not act on, and once the server has answered all packets from other ports, leave everything as it is |
| `Tftp.TimeoutSends` | beken_os/beken378/app/tftp/tftpclient.c:317-334 | a timeout repeats the request, or the acknowledgement of the last thing received, for the first ten of a transfer, and nothing after that |
| `Tftp.TimeoutMoves` | beken_os/beken378/app/tftp/tftpclient.c:317-334 | an acknowledgement that was lost: the timeout of the client alone moves the server on by one block |
| `Tftp.PortFixed` | beken_os/beken378/app/tftp/tftpclient.c:169-173 | the port that answers the request first is the server for the rest of the transfer |
| `Tftp.FirstAgain` | beken_os/beken378/app/tftp/tftpclient.c:260-277 | a first data packet that is not block 1 is not answered and leaves no trace |
| `Tftp.LateOack` | beken_os/beken378/app/tftp/tftpclient.c:197-277 | an OACK in the middle of a transfer makes the client drop the next block once; sent again it is taken as ever |
| `Tftp.SizeField` | beken_os/beken378/app/tftp/tftpclient.c:212-213 | block sizes that agree in 16 bits are the same answer |
| `Tftp.BlockZero` | beken_os/beken378/app/tftp/tftpclient.c:227-290 | behind block 65535 the number wraps to 0 and store_block is called with 2^32 - 1 |
| `Tftp.ExactlyOnce` | beken_os/beken378/app/tftp/tftpclient.c:160-334 | in every run over FIFO channels that lose and duplicate, the store_block calls so far are blocks 0, 1, 2, ... of the file, each once, in order, with the right bytes, and the client stops exactly when it has them all; with the receive buffer of 1600 bytes that is the file if and only if the block size, or the file, is at most 1596 bytes |
| `Tftp.GotLength` | beken_os/beken378/app/tftp/tftpclient.c:298-419 | among the blocks the client waits for, cut to the receive buffer, only the last one looks short |
| `Tftp.CutShort` | beken_os/beken378/app/tftp/tftpclient.c:298-419 | with larger blocks and a larger file some run stops with the first 1596 bytes as its only call |
| `Tftp.NothingNew` | beken_os/beken378/app/tftp/tftpclient.c:160-334 | timeouts, repeated OACKs and repeated blocks change neither the calls made nor what the client waits for |
| `Tftp.Exchange` | beken_os/beken378/app/tftp/tftpclient.c:279-296 | over quiet channels one resend, receive and acknowledge moves the exchange on by one block |
| `Tftp.CompletionIff` | beken_os/beken378/app/tftp/tftpclient.c:317-334 | a transfer can still complete in some future if and only if the server has the request, or one is under way, or the client has retries left: the retry budget matters only before the first answer |
| `Tftp.CallsIff` | beken_os/beken378/app/tftp/tftpclient.c:160-568 | for every block size the calls of a finished transfer are the packets of the image if and only if blocks have the size of packets and the last packet is a short one, or the image is a single packet shorter than a block |
| `Tftp.DownloadDelivered` | beken_os/beken378/app/tftp/tftpclient.c:160-568 | and when they are, they have delivered the image to flash |
| `Tftp.PlainServer` | beken_os/beken378/app/tftp/tftpclient.c:160-568 | with a server that knows no options, so with blocks of 512 bytes, a transfer of a well-formed image ends whose calls store_block all takes and after which flash does not hold the image |
| `Tftp.DownloadIff` | beken_os/beken378/app/tftp/tftpclient.c:160-568 | in transfers that agreed on 1048-byte blocks the calls are all within what store_block can take if and only if the last packet of the image is not a full one |
| `Tftp.FullImageSent` | beken_os/beken378/app/tftp/tftpclient.c:160-568 | such an image with a full last packet exists, and a finished transfer of it ends in a call store_block cannot take |
| `TftpPacket.ScanOptions` | beken_os/beken378/app/tftp/tftpclient.c:208-220 | the loop over the OACK returns the value behind the first occurrence of the option name, read as strtoul reads it: spaces, one sign, digits, saturation |
| `TftpPacket.Receive` | beken_os/beken378/app/tftp/tftpclient.c:160-315 | TftpHandler from the raw datagram on is Handle on the decoded packet |
| `TftpPacket.BufferedIsCut` | beken_os/beken378/app/tftp/tftpclient.c:419-421 | decoding what recvfrom leaves of a datagram in its buffer gives the packet with its payload cut at 1596 bytes |
| `TftpPacket.Opcodes` | beken_os/beken378/app/tftp/tftpclient.c:187-227 | opcode 3 is data with its block number high byte first, 6 an option acknowledgement, every other one nothing to the client |
| `TftpPacket.BlkSizeOption` | beken_os/beken378/app/tftp/tftpclient.c:208-220 | the option called blksize, wherever it stands behind others, gives its number |
| `TftpPacket.FillPacket` | beken_os/beken378/app/tftp/tftpclient.c:65-114 | the bytes sent: a request for the file in octet mode with a timeout of 5 and 1048-byte blocks, or opcode 4 and the block number |
| `TftpPacket.NumberForms` | beken_os/beken378/app/tftp/tftpclient.c:212-213 | numbers behind white space and a sign, a minus sign wrapping in 32 bits |
| `TftpPacket.DecimalRead` | beken_os/beken378/app/tftp/tftpclient.c:212-213 | reading back a number written in decimal |
| `TftpPacket.StepOver` | beken_os/beken378/app/tftp/tftpclient.c:208-220 | the scan at every offset steps over any string that does not end in the option name |
| `TftpPacket.ScanFinds` | beken_os/beken378/app/tftp/tftpclient.c:208-220 | behind any such strings the option is found and its value is the number the server wrote |
| `TftpPacket.WireBack` | beken_os/beken378/app/tftp/tftpclient.c:182-227 | data packets and OACKs, with or without the option and among other options, are read back as what the server meant |
| `Ring.WindowGrows` | beken_os/beken378/driver/audio/ring_buffer.c:109-175 | bytes stored right behind the queued ones, around the end, join the queue and disturb nothing in it |
| `Ring.Joined` | beken_os/beken378/driver/audio/ring_buffer.c:109-175 | the same for the queue between the two positions after the write position has moved |
| `RingBuffer.AdmitsIff` | beken_os/beken378/driver/audio/ring_buffer.c:125 | the size test is the intended comparison except for the four sizes at which its 32-bit addition wraps |
| `RingBuffer.RB.Read` | beken_os/beken378/driver/audio/ring_buffer.c:35-107 | a read returns and removes the longest prefix of the queue that was asked for |
| `RingBuffer.RB.Write` | beken_os/beken378/driver/audio/ring_buffer.c:109-175 | a write appends all its bytes exactly when they are at most rb_get_free_size, otherwise it changes nothing and returns 0 |
| `RingBuffer.RB.Clear` | beken_os/beken378/driver/audio/ring_buffer.c:25-33 | the queue is empty |
| `RingBuffer.RB.Sizes` | beken_os/beken378/driver/audio/ring_buffer.c:177-193 | fill size is the length of the queue and free size the capacity less the length and the four spare bytes |
| `RingDmaWrite.DmaStepSafe` | beken_os/beken378/driver/audio/ring_buffer_dma_write.c:18-35 | a byte the DMA stores before its pause address joins the unread bytes and overwrites none of them |
| `RingDmaWrite.PauseExact` | beken_os/beken378/driver/audio/ring_buffer_dma_write.c:125-135 | the pause address four behind the read position gives the DMA exactly the room there is |
| `RingDmaWrite.RB.Read` | beken_os/beken378/driver/audio/ring_buffer_dma_write.c:53-138 | with the DMA running between any two bytes, a read hands over the next unread bytes in order, at least all that were there at the call |
| `RingDmaWrite.RB.CopyOut` | beken_os/beken378/driver/audio/ring_buffer_dma_write.c:53-138 | copying out while the DMA keeps storing still copies the unread bytes |
| `RingDmaWrite.RB.FillSize` | beken_os/beken378/driver/audio/ring_buffer_dma_write.c:140-154 | between the unread bytes at the call and those at the return |
| `RingDmaWrite.RB.FreeSize` | beken_os/beken378/driver/audio/ring_buffer_dma_write.c:156-170 | between the free bytes at the return and those at the call |
| `RingDmaWrite.AnyRun` | beken_os/beken378/driver/audio/ring_buffer_dma_write.c:18-170 | over any run and any interleaving, everything the reads returned followed by what is unread is everything the DMA wrote |
| `RingDmaRead.DmaStepTakes` | beken_os/beken378/driver/audio/ring_buffer_dma_read.c:19-36 | a byte the DMA takes before its pause address is the oldest pending one |
| `RingDmaRead.Unseen` | beken_os/beken378/driver/audio/ring_buffer_dma_read.c:55-133 | a byte stored behind the pause address, short of the channel, does not change what the DMA may read |
| `RingDmaRead.RB.Write` | beken_os/beken378/driver/audio/ring_buffer_dma_read.c:55-133 | with the DMA running between any two bytes, a write is accepted whole and in order, or, only when it does not fit, not at all; the DMA never passes what is accepted |
| `RingDmaRead.RB.Publish` | beken_os/beken378/driver/audio/ring_buffer_dma_read.c:116-133 | moving the pause address up to the write position makes the block pending in one piece |
| `RingDmaRead.RB.FillSize` | beken_os/beken378/driver/audio/ring_buffer_dma_read.c:135-149 | between the pending bytes at the return and those at the call |
| `RingDmaRead.RB.FreeSize` | beken_os/beken378/driver/audio/ring_buffer_dma_read.c:151-165 | never more than is free when it returns |
| `RingDmaRead.AnyRun` | beken_os/beken378/driver/audio/ring_buffer_dma_read.c:19-165 | over any run the bytes the DMA read followed by the pending ones are the accepted blocks put together, a block no longer than the free size just reported is never refused, and that size is at least what the blocks accepted before leave free |
| `Kfifo.SizeDivides` | beken_os/beken378/common/fifo.h:103-157 | a power-of-two size divides the range of the counters, so masking survives their wrap |
| `Kfifo.MaskedIn` | beken_os/beken378/common/fifo.h:103-157 | the masked write counter is the queue length past the masked read counter, also after either counter has wrapped |
| `Kfifo.Distance` | beken_os/beken378/common/fifo.h:103-167 | put and get move the distance of the counters, modulo 2^32, by the bytes moved |
| `Kfifo.QueueGrows` | beken_os/beken378/common/fifo.h:103-125 | bytes stored at the masked write counter join the queue across both kinds of wrap |
| `Kfifo.QueueShrinks` | beken_os/beken378/common/fifo.h:137-157 | moving the read counter takes a prefix off the queue |
| `Kfifo.KFifo.Put` | beken_os/beken378/common/fifo.h:103-125 | appends the first min(len, free) bytes |
| `Kfifo.KFifo.Get` | beken_os/beken378/common/fifo.h:137-157 | removes and returns the first min(len, queued) bytes |
| `Kfifo.KFifo.Peek` | beken_os/beken378/common/fifo.h:169-199 | returns what get would and leaves the queue as it is |
| `Kfifo.KFifo.Sizes` | beken_os/beken378/common/fifo.h:159-167 | data size and unused count the queue whatever the counters have done; the difference of the counters never exceeds the size |
| `Sfifo.InitTerminates` | beken_os/beken378/app/ftp/ftpd.c:281-283 | the sizing loop ends if and only if the size asked for is below 2^30 |
| `Sfifo.ShiftedCases` | beken_os/beken378/app/ftp/ftpd.c:281-283 | what the signed 32-bit size field holds after k shifts |
| `Sfifo.UsedIs` | beken_os/beken378/app/ftp/ftpd.c:254-257 | the masked difference of the positions is the number of queued bytes, with positions allowed to equal the size |
| `Sfifo.SFifo.Init` | beken_os/beken378/app/ftp/ftpd.c:264-290 | the smallest power of two with space for the bytes asked for, an empty queue, and the out-of-memory error |
| `Sfifo.SFifo.Write` | beken_os/beken378/app/ftp/ftpd.c:305-334 | appends as many bytes as there is space for and returns that number; the missing-buffer error changes nothing |
| `Sfifo.SFifo.SendData` | beken_os/beken378/app/ftp/ftpd.c:386-428 | what leaves the queue is what tcp_write accepted, in order, and from its answers exactly how much: min(sndbuf, queued) when it accepts, nothing when it refuses the first segment, the part up to the end when only the one behind the wrap is refused |
| `Sfifo.SFifo.SendUpTo` | beken_os/beken378/app/ftp/ftpd.c:398-426 | the same for the one or two segments of a given length |
| `Sfifo.SFifo.SendSegment` | beken_os/beken378/app/ftp/ftpd.c:409-426 | an accepted segment leaves the queue, a refused one stays |
| `Sfifo.AnyRun` | beken_os/beken378/app/ftp/ftpd.c:264-428 | over any run every push takes exactly as much of its data as there is space for, every pull sends the front of the queue, min(sndbuf, queued) bytes when tcp_write refuses nothing, and the bytes tcp_write accepted followed by those queued are the bytes sfifo_write accepted |
| `Sfifo.PushOnce` | beken_os/beken378/app/ftp/ftpd.c:305-334 | a push appends the front of its data, as long as the space |
| `AdcMedian.Insert` | tuyaos/tuyaos_adapter/src/tkl_adc.c:51-59 | terminates, keeps the heap order, adds exactly the new sample and touches nothing behind the heap |
| `AdcMedian.Replace` | tuyaos/tuyaos_adapter/src/tkl_adc.c:61-87 | terminates, keeps the heap order, exchanges exactly the root for the new sample and returns the root |
| `AdcMedian.RiseStep` | tuyaos/tuyaos_adapter/src/tkl_adc.c:54-57 | moving the parent down into the hole keeps the order around it and the samples |
| `AdcMedian.SinkStep` | tuyaos/tuyaos_adapter/src/tkl_adc.c:65-85 | moving the smaller child up into the hole keeps the order around it and the samples |
| `AdcMedian.KeepReplaced` | tuyaos/tuyaos_adapter/src/tkl_adc.c:313-317 | replacing the root by a larger sample keeps the largest samples |
| `AdcMedian.Select` | tuyaos/tuyaos_adapter/src/tkl_adc.c:306-317 | after both loops the heap holds exactly the (n+1)/2 largest of the n samples |
| `AdcMedian.NotBelow` | tuyaos/tuyaos_adapter/src/tkl_adc.c:306-317 | the root is not above its place in the sorted samples |
| `AdcMedian.NotAbove` | tuyaos/tuyaos_adapter/src/tkl_adc.c:306-317 | the root is not below it |
| `AdcMedian.RootIsMedian` | tuyaos/tuyaos_adapter/src/tkl_adc.c:306-317 | the root is the sample (n+1)/2 from the end of the sorted samples: the median for odd n |
| `AdcMedian.SumAppend` | tuyaos/tuyaos_adapter/src/tkl_adc.c:319-327 | a sum over a concatenation is the sum of the sums |
| `AdcMedian.WithinIs` | tuyaos/tuyaos_adapter/src/tkl_adc.c:321-324 | the samples between two bounds are all of them, each as often as it occurs |
| `AdcMedian.SumBounds` | tuyaos/tuyaos_adapter/src/tkl_adc.c:319-327 | the sum of values between two bounds lies between the bounds times their number |
| `AdcMedian.MeanNear` | tuyaos/tuyaos_adapter/src/tkl_adc.c:319-331 | the last loop: the sum of the samples within 5 of the root, divided by their number, which is not 0 |
| `AdcMedian.Filter` | tuyaos/tuyaos_adapter/src/tkl_adc.c:306-331 | for any n samples the divisor is at least one and the result is the plain sum of the samples within 5 of the median, divided by their number, itself within 5 of the median |
| `Airkiss.Scanner.SetScanAllChannel` | beken_os/beken378/app/airkiss/airkiss_main.c:173-189 | a fresh full scan: thirteen channels with empty counters, nothing selected |
| `Airkiss.Scanner.CountPacket` | beken_os/beken378/app/airkiss/airkiss_main.c:122-171 | a beacon or data frame raises one counter of the current entry, modulo 256, and nothing else changes |
| `Airkiss.CountsAre` | beken_os/beken378/app/airkiss/airkiss_main.c:122-171 | over any packets the counters are the number of beacons and the number of data frames, in 8 bits |
| `Airkiss.Scanner.AddChannel` | beken_os/beken378/app/airkiss/airkiss_main.c:205-236 | the sorted prefix takes the channel in behind equally busy ones, although it shares the array with the scan; no entry behind the new prefix moves |
| `Airkiss.SelectedIs` | beken_os/beken378/app/airkiss/airkiss_main.c:205-236 | the selection is exactly the scanned channels that meet both thresholds, in strictly descending (count, scan order): stable and without duplicates |
| `Airkiss.SelectedSnoc` | beken_os/beken378/app/airkiss/airkiss_main.c:205-236 | during a full scan a channel is always inserted, never overwritten |
| `Airkiss.Scanner.ScanStep` | beken_os/beken378/app/airkiss/airkiss_main.c:256-274 | one dwell of a full scan: the selection grows by the current channel, entries ahead are untouched, and at the end the visit or a new scan begins |
| `Airkiss.Scanner.VisitStep` | beken_os/beken378/app/airkiss/airkiss_main.c:276-287 | one dwell of the visit goes on to the next selected channel or back to a full scan |
| `Airkiss.Scanner.SwitchChannel` | beken_os/beken378/app/airkiss/airkiss_main.c:238-305 | channel and dwell time set by the timer callback, in every state |
| `Airkiss.DwellBounds` | beken_os/beken378/app/airkiss/airkiss_main.c:191-203 | dwell times lie within 1000 and 5000 and grow with the count |
| `Airkiss.DwellIs` | beken_os/beken378/app/airkiss/airkiss_main.c:191-203 | a second for every four frames, from one second to five |
| `Airkiss.PlanShape` | beken_os/beken378/app/airkiss/airkiss_main.c:238-305 | the channels visited are distinct, with non-increasing dwell times within 1000 and 5000 |
| `Airkiss.Dwell` | beken_os/beken378/app/airkiss/airkiss_main.c:122-171 | whatever arrives during a dwell, only the current entry counts it |
| `Airkiss.SelectedOf` | beken_os/beken378/app/airkiss/airkiss_main.c:205-236 | a scan selects exactly the channels with at least four data frames and a beacon, counted in the packets met |
| `Airkiss.VisitsAre` | beken_os/beken378/app/airkiss/airkiss_main.c:173-236 | the plan in terms of the packets: these channels, those with more data frames first and ties in scanning order, each for its time |
| `Airkiss.FullCycle` | beken_os/beken378/app/airkiss/airkiss_main.c:122-305 | for any traffic, from one full scan to the next, the channels visited and their times are those of the sorted selection of what the scan saw, stated by the numbers of data frames and beacons among the packets |
| `I2c1.WriteStep` | beken_os/beken378/driver/i2c/i2c1.c:234-280 | one interrupt of a write sends the next byte, or stops when all are out or the last was refused |
| `I2c1.AddressStep` | beken_os/beken378/driver/i2c/i2c1.c:282-350 | one interrupt of the addressing of a read; a refusal stops, and is reported only before the repeated start |
| `I2c1.ReceiveStep` | beken_os/beken378/driver/i2c/i2c1.c:299-323 | one interrupt of the receiving stores the byte, acknowledges all but the last and then stops |
| `I2c1.Direction` | beken_os/beken378/driver/i2c/i2c1.c:282-350 | the controller transmits until the read address is answered and receives from then on, acknowledging all but the last byte |
| `I2c1.Master.IsrWrite` | beken_os/beken378/driver/i2c/i2c1.c:208-280 | the handler in write mode has exactly the effect of WriteIsr |
| `I2c1.Master.IsrRead` | beken_os/beken378/driver/i2c/i2c1.c:208-350 | the handler in read mode has exactly the effect of ReadIsr and stores the byte received |
| `I2c1.Master.SetUp` | beken_os/beken378/driver/i2c/i2c1.c:420-565 | the set-up of either transfer: parameters, START and the write address |
| `I2c1.Master.Write` | beken_os/beken378/driver/i2c/i2c1.c:494-565 | for either register width, any 32-bit count and any answers: START, address, register bytes high first and count mod 65536 data bytes in order up to the first refusal, STOP, one interrupt a byte, success exactly when all were acknowledged; that is the write asked for if and only if count < 65536 |
| `I2c1.Master.Read` | beken_os/beken378/driver/i2c/i2c1.c:420-492 | for any 32-bit count: all acknowledged, one repeated START, count mod 65536 bytes (65536 for none) stored in order, only the last refused, STOP after width + that number + 2 interrupts; otherwise the transfer stops, the buffer is untouched and only a refusal before the repeated START is reported |
| `I2c1.TakenExact` | beken_os/beken378/driver/i2c/i2c1.c:299-323 | a read takes the number of bytes asked for if and only if 1 <= count <= 65536 |
| `I2c1.AddressBytes` | beken_os/beken378/driver/i2c/i2c1.c:458-531 | the address byte of either direction is the low seven bits of the slave address and the direction bit |
| `I2c1.Pointed` | beken_os/beken378/driver/i2c/i2c1.c:261-348 | after the addressing part the register device points at the register asked for |
| `I2c1.WriteLands` | beken_os/beken378/driver/i2c/i2c1.c:234-280 | the data bytes of a write end up in consecutive registers |
| `I2c1.ReadFollows` | beken_os/beken378/driver/i2c/i2c1.c:282-350 | during a read the device with the address asked for is always at the register the master is about to receive, and after the last byte it has let go of the bus |
| `I2c1.WriteThenRead` | beken_os/beken378/driver/i2c/i2c1.c:208-565 | on an auto-increment register device the traces of a write and a read that follows carry the same bytes |
| `I2c1.WriteEffect` | beken_os/beken378/driver/i2c/i2c1.c:494-565 | after a write the device with the address asked for holds the data in the registers from the one asked for on, by 8 or 16 bits of address, and nothing else changed in it |
| `I2c1.Elsewhere` | beken_os/beken378/driver/i2c/i2c1.c:420-565 | a device with any other address keeps its registers through any write and any read, finished or refused |
| `I2c1.RoundTrip` | beken_os/beken378/driver/i2c/i2c1.c:420-565 | i2c1_write and then i2c1_read over the device with the address asked for, beside another one: both succeed, the buffer holds the bytes written, the registers asked for and no others hold them, and the other device is as it was |
| `I2c2.FirstBatchFits` | beken_os/beken378/driver/i2c/i2c2.c:228-279 | whatever was left in the interrupt-mode bits, the first batch of a read is at most the count |
| `I2c2.FirstModes` | beken_os/beken378/driver/i2c/i2c2.c:228-279 | from clean mode bits the first batch of a read is the largest below the count, or one byte; a write starts with room for 12 bytes, or 16 when fewer than 4 are to go |
| `I2c2.StartedBits` | beken_os/beken378/driver/i2c/i2c2.c:270-279 | starting sets START, clears bit 2, adds the mode and leaves every other bit |
| `I2c2.ModeTable` | beken_os/beken378/driver/i2c/i2c2.c:390-410 | what each mode promises |
| `I2c2.AddressBytes` | beken_os/beken378/driver/i2c/i2c2.c:187-226 | the address bytes are the seven address bits and the direction |
| `I2c2.Master.SendStart` | beken_os/beken378/driver/i2c/i2c2.c:228-279 | the interrupt mode for the count is OR-ed onto the leftover bits and START set, with the address in the FIFO |
| `I2c2.Master.SetUp` | beken_os/beken378/driver/i2c/i2c2.c:907-1036 | the set-up of a read or write, refused while the last transfer is flagged as done |
| `I2c2.Master.PushBatch` | beken_os/beken378/driver/i2c/i2c2.c:390-437 | a batch of a write: the smaller of what remains and the free places the mode promises, in order |
| `I2c2.Master.IsrWrite` | beken_os/beken378/driver/i2c/i2c2.c:361-523 | the handler in a 7-bit master write has exactly the effect of WriteIsr |
| `I2c2.Master.PullBatch` | beken_os/beken378/driver/i2c/i2c2.c:550-594 | a batch of a read stores exactly the bytes the mode promises, in order, and sets ACK, STOP and mode by what is left |
| `I2c2.Master.IsrRead` | beken_os/beken378/driver/i2c/i2c2.c:525-694 | the handler in a 7-bit master read has exactly the effect of ReadIsr and stores the bytes received |
| `I2c2.WriteKeeps` | beken_os/beken378/driver/i2c/i2c2.c:361-523 | every interrupt of a write keeps: bytes in order, FIFO never above 16, STOP exactly when done; it sends as many bytes as the mode has places for or remain; it ends exactly on a refusal or when nothing remains, with the FIFO empty |
| `I2c2.WriteRegisters` | beken_os/beken378/driver/i2c/i2c2.c:361-523 | a write interrupt leaves SI and START clear |
| `I2c2.WriteRunSound` | beken_os/beken378/driver/i2c/i2c2.c:361-523 | the same for every state of every run, and each interrupt that does not end it makes progress |
| `I2c2.WriteDelivers` | beken_os/beken378/driver/i2c/i2c2.c:361-523 | for every count and any leftover mode bits an acknowledged write sends the addresses and count mod 256 data bytes in order; that is the whole request if and only if count < 256 |
| `I2c2.ReadDataKeeps` | beken_os/beken378/driver/i2c/i2c2.c:550-594 | a batch of a read: the next bytes of the slave; the batch stays as large as what remains allows, otherwise one byte; ACK withheld and STOP set only when nothing remains |
| `I2c2.ReadKeeps` | beken_os/beken378/driver/i2c/i2c2.c:525-694 | every interrupt of a read keeps the invariant: stored bytes in order, next batch never above what remains |
| `I2c2.ReadRegisters` | beken_os/beken378/driver/i2c/i2c2.c:525-694 | a read interrupt leaves SI clear, sets START exactly once the register number has gone out, and ACK when the start before the data was answered |
| `I2c2.ReadMoves` | beken_os/beken378/driver/i2c/i2c2.c:525-694 | every interrupt of a read goes on with the addressing, stores a batch or ends the read on a refusal |
| `I2c2.ReadRunSound` | beken_os/beken378/driver/i2c/i2c2.c:525-694 | the invariant for every state of every run, with at most three interrupts besides those that store a batch and a refusal |
| `I2c2.TotalExact` | beken_os/beken378/driver/i2c/i2c2.c:228-279 | the number of bytes a read takes equals the count if and only if 1 <= count < 256 + the first batch |
| `I2c2.ReadDelivers` | beken_os/beken378/driver/i2c/i2c2.c:525-694 | for every count and any leftover mode bits an acknowledged read stores the slave's bytes in order and ends with NACK and STOP; that is what was asked for if and only if 1 <= count < 256 + the first batch |
| `I2c2.Write` | beken_os/beken378/driver/i2c/i2c2.c:987-1064 | i2c2_write to its end, for every count, any answers and any speed of the FIFO: at most count mod 256 + 2 interrupts, the bytes sent a prefix of addresses and data in order, all of count mod 256 data bytes when acknowledged |
| `I2c2.Read` | beken_os/beken378/driver/i2c/i2c2.c:907-985 | i2c2_read to its end: at most 4 interrupts more than bytes, the bytes stored are the first ones of the slave in order with the rest of the buffer untouched, and all of them when acknowledged, as many as asked for if and only if 1 <= count < 256 + the first batch |
| `I2c2.StoreThenRead` | beken_os/beken378/driver/i2c/i2c2.c:907-1064 | what is stored in a register file from some register on is what is read from there |
| `I2c2.SentTo` | beken_os/beken378/driver/i2c/i2c2.c:361-523 | what a write sends stores the data in the device with the address asked for, from the register asked for on |
| `I2c2.NotToOthers` | beken_os/beken378/driver/i2c/i2c2.c:361-694 | and in no other, and no other device takes a read for itself |
| `I2c2.RoundTrip` | beken_os/beken378/driver/i2c/i2c2.c:907-1064 | i2c2_write and then i2c2_read of the same registers over the device with the address asked for: when everything is acknowledged the registers and then the buffer hold the bytes |
| `DoublyList.Node.constructor` | beken_os/beken378/common/doubly_list.h:23-30 | an initialised head is a ring of its own |
| `DoublyList.RingTurns` | beken_os/beken378/common/doubly_list.h:18-21 | a ring can be read from any of its nodes |
| `DoublyList.RingUnique` | beken_os/beken378/common/doubly_list.h:18-21 | the links determine the list: one head, one sequence |
| `DoublyList.RingsApart` | beken_os/beken378/common/doubly_list.h:18-21 | rings sharing one node are the same ring |
| `DoublyList.Insert` | beken_os/beken378/common/doubly_list.h:38-44 | the node stands between its two neighbours, everything else in the ring is in place |
| `DoublyList.ListAddHead` | beken_os/beken378/common/doubly_list.h:54-57 | the list becomes node followed by the old list |
| `DoublyList.ListAddTail` | beken_os/beken378/common/doubly_list.h:67-70 | the list becomes the old list followed by node |
| `DoublyList.ListDel` | beken_os/beken378/common/doubly_list.h:91-94 | the list without the entry; the entry keeps its dangling links |
| `DoublyList.ListDelInit` | beken_os/beken378/common/doubly_list.h:100-104 | the same, and the entry becomes a ring of its own |
| `DoublyList.AddThenDelete` | beken_os/beken378/common/doubly_list.h:67-94 | deleting undoes adding link by link, and a ring the calls were not given keeps all its links |
| `DoublyList.ListMove` | beken_os/beken378/common/doubly_list.h:111-115 | from any place of the same or another ring to the front of the list |
| `DoublyList.ListMoveTail` | beken_os/beken378/common/doubly_list.h:122-127 | the same, to the end of the list |
| `DoublyList.ListEmpty` | beken_os/beken378/common/doubly_list.h:133-136 | true exactly for the head alone |
| `DoublyList.ListSplice` | beken_os/beken378/common/doubly_list.h:138-161 | the spliced list stands in front of the old one; the emptied head keeps its links |
| `DoublyList.ListSpliceInit` | beken_os/beken378/common/doubly_list.h:170-177 | the same, and the emptied head is an empty list |
| `DoublyList.ListSize` | beken_os/beken378/common/doubly_list.h:206-222 | terminates with the length of the list, as an unsigned int |
| `DoublyList.WalkAndDelete` | beken_os/beken378/common/doubly_list.h:200-208 | the safe walk whose body deletes any of the entries visits every entry once in order, leaves the others in order and every deleted one initialised |
| `Base64.Encode` | beken_os/beken378/app/http/utils_httpc.c:63-82 | the encoding of RFC 4648 section 4, with length 4 * ceil(n / 3) |
| `Base64.DecodeEncode` | beken_os/beken378/app/http/utils_httpc.c:63-82 | decoding returns the input |
| `Base64.FourDigits` | beken_os/beken378/app/http/utils_httpc.c:63-82 | a group is one 24-bit number cut into four digits of six bits |
| `Base64.Vectors` | beken_os/beken378/app/http/utils_httpc.c:63-82 | the first test vectors of section 10 of RFC 4648 |
| `Base64.WholeGrows` | beken_os/beken378/app/http/utils_httpc.c:68-73 | each byte completes one or two symbols of the standard's encoding and leaves the remaining bits |
| `Base64.ShiftIn` | beken_os/beken378/app/http/utils_httpc.c:69-71 | shifting a byte into the wrapping 32-bit accumulator keeps the bits still to be sent |
| `Base64.WholeEnds` | beken_os/beken378/app/http/utils_httpc.c:74-80 | the last symbol, filled with zero bits, and the padding complete the standard's encoding |
| `Base64.Emit` | beken_os/beken378/app/http/utils_httpc.c:70-72 | the inner loop sends exactly the whole symbols the accumulator holds |
| `Base64.Base64Enc` | beken_os/beken378/app/http/utils_httpc.c:63-82 | for every C string the output is the standard's encoding and a terminator, and nothing else is written |
| `Base64.Client.BasicAuth` | beken_os/beken378/app/http/utils_httpc.c:231-239 | accepts exactly user and password of together less than 128 characters, and otherwise keeps the old ones |
| `Base64.Client.SendAuth` | beken_os/beken378/app/http/utils_httpc.c:241-255 | every accepted pair gives the encoding of user:password and a newline, inside both buffers |
| `Base64.TightBuffers` | beken_os/beken378/app/http/utils_httpc.c:243-251 | the longest accepted pair uses 129 of 131 and 174 of 175 bytes |
| `Base64.CredentialsBack` | beken_os/beken378/app/http/utils_httpc.c:247-249 | the receiver gets back user and password, for every user name without a colon |
| `RxCredit.StepSound` | beken_os/beken378/app/app_bk.c:119-131 | every step keeps the meaning of the counter, and the guard of the decrement is always true |
| `RxCredit.AnyRun` | beken_os/beken378/app/app_bk.c:434-460 | in every interleaving the counter is frames queued + between reserve and push + popped and not counted down + failed pushes, at most 2; frames arrive in queue order |
| `RxCredit.AllAccounted` | beken_os/beken378/app/app_bk.c:434-460 | in every run the frames taken in are those on their way to the queue, put there, or lost to a full queue, each once |
| `RxCredit.Recovers` | beken_os/beken378/app/app_bk.c:637-667 | with fewer than two failed pushes reception always goes on after the work under way |
| `RxCredit.ReceptionDies` | beken_os/beken378/app/app_bk.c:434-460 | a frame can be accepted in some future if and only if fewer than two pushes have ever failed |
| `RxCredit.Dies` | beken_os/beken378/app/app_bk.c:434-460 | a run from the start in which other messages fill the queue, two pushes fail on it, and no continuation ever accepts a frame again |
| `RxCredit.Reachable` | beken_os/beken378/app/app_bk.c:434-460 | both for everything that can happen from the start |
| `RxCredit.Wifi.Reserve` | beken_os/beken378/app/app_bk.c:445-453 | the first half of bmsg_rx_sender |
| `RxCredit.Wifi.SenderPush` | beken_os/beken378/app/app_bk.c:455-459 | its second half: the push succeeds exactly when the queue is not full, and a failed one leaves the counter as it is |
| `RxCredit.Wifi.PopFromQueue` | beken_os/beken378/app/app_bk.c:646-649 | the core thread takes the oldest message |
| `RxCredit.Wifi.RxHandler` | beken_os/beken378/app/app_bk.c:119-130 | the handler's critical section |
| `TlvSearch.SearchByType` | beken_os/beken378/app/net_work/app_drone.c:385-411 | on every flash on which the loop ends, and only there, it returns what following the heads with 32-bit addresses gives: the first head of the type below the end of the class, or 0 |
| `TlvSearch.EndsIff` | beken_os/beken378/app/net_work/app_drone.c:395-407 | exactly when the loop ends: when it ends within as many steps as the end address says, and when no head is read twice before a stop |
| `TlvSearch.NeverEnds` | beken_os/beken378/app/net_work/app_drone.c:395-407 | a configuration of two items at its place in flash on which the search for any other type goes back and forth for ever |
| `TlvSearch.ForwardEnds` | beken_os/beken378/app/net_work/app_drone.c:395-407 | when every head read sends the search forward, it ends |
| `TlvSearch.ForwardIff` | beken_os/beken378/app/net_work/app_drone.c:399-405 | what that asks of a head: its length wraps neither the head nor the address, or is so large that both together wrap to a small step forward |
| `TlvSearch.WalkFinds` | beken_os/beken378/app/net_work/app_drone.c:395-407 | over stored children the walk ends at the first of the type |
| `TlvSearch.SearchFinds` | beken_os/beken378/app/net_work/app_drone.c:385-411 | in any stored class the search terminates with the address of the first child of the type inside the class, or 0 when there is none |
| `TlvSearch.Erased` | beken_os/beken378/app/net_work/app_drone.c:385-411 | where the class head is erased the search returns 0 |
| `TlvSearch.ErasedClass` | beken_os/beken378/app/net_work/app_drone.c:385-411 | where a class is erased behind its head the search for any type but the erased one creeps forward, ends and returns 0 |
| `TlvSearch.AnyOrder` | beken_os/beken378/app/net_work/app_drone.c:385-411 | when no type occurs twice the order of the items does not matter |
| `TlvSearch.GeneralRead` | beken_os/beken378/app/net_work/app_drone.c:413-474 | which item is which general parameter, by type number and in any order |
| `TlvSearch.ApRead` | beken_os/beken378/app/net_work/app_drone.c:476-540 | which item is which access point parameter, with and without a password |
| `TlvSearch.MissingItem` | beken_os/beken378/app/net_work/app_drone.c:413-540 | without one of the items, the password apart, there are no parameters |
| `TlvSearch.GetGeneralParameters` | beken_os/beken378/app/net_work/app_drone.c:413-474 | succeeds exactly when the class and all five items are there, with the encoded values |
| `TlvSearch.GetApParameters` | beken_os/beken378/app/net_work/app_drone.c:476-540 | the same for the access point, except that a missing password is a success without a key |

## Left out

- Flash.Device.WriteData: does not cover a write the guard lets through although it ends past the chip; the guard tests the page address, so that family exists.
- Ota.Updater.StoreBlock: does not cover packets shorter than the header or longer than the 1024-byte read-back buffer allows, nor writes past the chip that the driver lets through; the sequence and header comparisons and the read-back only print messages.
- HttpFlash.DownloadOta: does not cover an image whose length is a multiple of 1048, because the final flush then calls `store_block` with no bytes at all, outside what that function can take (`HttpFlash.FlushIff`).
- HttpFlash.Writer.constructor: does not model a failed allocation of the block buffer.
- Tftp.DownloadDelivered: is about the transfers whose calls are the image's packets; `Tftp.CallsIff` says exactly which, and what the others leave in flash depends on their contents (`Tftp.PlainServer` is one of them).
- Tftp.DownloadIff: is about 1048-byte blocks; for other sizes it depends on the file's contents whether `store_block` can take every piece.
- RingBuffer.RB.Write: excludes the sizes whose test passes because it wraps (`RingBuffer.AdmitsIff`); one call is one step: between its two copies the write position is already published, so preemption inside a call is not claimed.
- RingDmaRead.RB.Write: needs size * count below 2^32 - 4, where the size test means what it says.
- RingDmaWrite.RB.Read: `rb_clear_dma_write` and `rb_clear_dma_read` while the channel runs are not modelled.
- Sfifo.SFifo.Init: sizes at which the sizing loop does not end are excluded; `Sfifo.InitTerminates` says which.
- Sfifo.AnyRun: `send_msgdata` has the shape of `send_data` and is not repeated.
- AdcMedian.Filter: the conversion of the result to millivolts and the driver that fills the sample buffer are left out; the sum stays far below 2^32.
- Airkiss.FullCycle: the list of MAC addresses is left out; it has 50 entries and no bound is tested, so the traffic is one with at most 50 different sender CRCs in the beacons from one full scan to the next, where the list is cleared. The channel lock of the AirKiss library and the timers themselves are left out.
- I2c1.Master.Read: the busy-wait time-outs around the transfers are left out, and interrupts arrive in time.
- I2c1.RoundTrip: counts are at least 1 and below 65536, where write and read move the bytes asked for.
- I2c2.RoundTrip: transfers with a register number and 1 to 255 bytes, where write and read move the bytes asked for.
- I2c2.WriteDelivers: the 10-bit address and slave modes, arbitration loss, SCL time-out and the busy-wait's time-outs are left out; in `I2c2.Write` and `I2c2.Read` interrupts arrive in time.
- DoublyList.WalkAndDelete: the walk over a list that another thread changes is left out.
- Base64.Client.BasicAuth: keeps the characters, not the caller's pointers, so a caller changing its strings afterwards is not modelled.
- TlvSearch.SearchByType: requires that the loop ends, since only then is there a result; `TlvSearch.EndsIff` says on exactly which flash contents it does.
- TlvSearch.GetGeneralParameters: the sizes of the caller's fields, into which the items are copied, are not modelled.
- RxCredit.AnyRun: the handlers of other messages and the scheduler call in the core thread are one step each.
- Register access, clocks, pins, flash line modes, status registers and protection.
- HTTP header and chunk parsing, sockets, lwIP, FTP commands, FreeRTOS wrappers, Wi-Fi and BLE state.
- Audio, codec, FFT, LED and demo code; pin and constant tables; logging.
