# Serial line, mbuf chains and interface queues: a verified model

This project models four parts of the network stack and proves properties of them.

* **SLIP framing** (`net/if_sl.c`): the per-character receiver, the two-queue transmitter with its
  byte stuffing, the output entry point and the allocator of units. The protocol is the one in the PROTOCOL
  section of RFC 1055.
* **mbuf chains** (`kern/uipc_mbuf.c`, `sys/mbuf.h`): linked lists of small buffers that have to behave like
  one flat byte sequence.
* **Interface queues** (`net/if.h`) and their producers (`net/if_ethersubr.c`, `net/if_loop.c`).
* **Number coding of header compression** (`net/slcompress.c`, section 3.2.2 of RFC 1144), the byte order
  functions under it (`hp300/include/endian.h`), and the iterator over multicast records
  (`netinet/in_var.h`).

Objects that the source updates in place are classes with the same fields; loops are loops; macros are
methods. A chain is described by two ghost values: `ns`, its mbufs in order, and `ss`, the bytes each of them
holds. `Concat(ss)` is the flat content. The contracts of the methods tie the heap to functions on these
values, and the laws are lemmas about those functions.

| file | module | part of the program |
|---|---|---|
| Bytes.dfy, Arena.dfy | Bytes, Arenas | bytes, options, flattening; the allocator |
| Pieces.dfy | Pieces | what the chain operations do to `ss`, as functions |
| Mbuf.dfy, MbufBuild.dfy, MbufCopyback.dfy, MbufCopybackAsWritten.dfy, MbufFree.dfy | Mbufs, and as the file | kern/uipc_mbuf.c |
| Ifqueue.dfy, IfOffer.dfy | Ifqueues, IfOffer | net/if.h |
| SlipCodec.dfy | SlipCodec | the protocol as functions on bytes |
| SlipWire.dfy, SlipLine.dfy, SlipRun.dfy, SlipUnits.dfy | the same names | net/if_sl.c |
| IpInput.dfy, IpInputRun.dfy | the same names | ether_input, looutput and the shared IP queue |
| VjCode.dfy | VjCode | net/slcompress.c, hp300/include/endian.h |
| Multicast.dfy | Multicast | netinet/in_var.h |

## Two readings of the code

Some passages do not do what their own surroundings say they are for. Such a passage takes a parameter
`form: Form`. `AsWritten` follows the text of the source; `Repaired` follows the evident intent. The rest of
the body is shared. The law is proved for `Repaired` on all inputs, and for `AsWritten` there is a lemma that
says exactly when it holds.

| passage | as written | exact condition |
|---|---|---|
| net/if_sl.c:281-301 | after a packet has been queued, control falls into the store of a byte (0x40) and the buffer is kept | `InPlaceIff`: each frame delivers its own packet, and nothing else is delivered, iff every packet but the last fills the buffer and a FRAME_END comes before every frame but the first; `AsWrittenStreamRoundTrip`, `Resynchronises` |
| net/if_sl.c:162-181 | `sl_btom` copies up to 1912 bytes into the 72-byte data area of a header mbuf | `CopyStaysInside`: iff there are at most 72; `LongFrameOverruns`, `SeventyThreeBytes` |
| net/if_sl.c:457-484 | the `break` leaves only the `switch`, so the scan runs to the end of the mbuf and everything but its last byte is sent unescaped | `BodyAsWritten`: iff the packet is empty |
| net/if_sl.c:468-501 | `if_obytes` counts the bytes before they are escaped, and the last FRAME_END twice | `FrameCountIsLength`: never what is sent, for a packet that is not cut short; `CountIsLength` |
| net/if_sl.c:486 | `MFREE` frees the external buffer of an mbuf but not the mbuf | `MacroReleasesAll`: all of a chain is released iff there are no mbufs |
| kern/uipc_mbuf.c:87-99 | a negative `m_adj` cuts the first mbuf that is long enough, and leaves the header length | `TailTrimAsWritten`: iff at most one mbuf is non-empty; `HeaderAsWritten`: the header length is right iff more is asked for than there is |
| kern/uipc_mbuf.c:156-208 | `m_copyback` skips by what `get_total_len` says, leaves a new mbuf at full length and never advances `cp` | `CopybackAsWritten`: iff the mbufs passed hold, together, as many bytes as `get_total_len` says, and all bytes go into one mbuf and stay inside it, without a gap, or exactly fill a new one (`Works` and `Takes`, which also cover an offset at the end of an mbuf); `MarkedHeaderOverruns`: a full header mbuf with another flag set is overrun; `CopybackHeaderAsWritten`: the header length is right iff the mbufs that were there do not get longer, together |
| kern/uipc_mbuf.c:283-297 | `m_copym` copies a whole source mbuf whatever room there is, and never sets the header length | `CopymAsWritten`: the copies fit iff at most 72 bytes are taken of the first mbuf of the stretch and at most 88 of each later one; `FullMbufOverruns`; `MCopym`: the header length is right iff nothing is copied |
| kern/uipc_mbuf.c:379 | `m_free` hands on M_EXT, so later mbufs free a buffer they do not have | `FreeByOneAsWritten`: iff the mbufs with clusters come last |
| kern/uipc_mbuf.c:333-334 | `m_getclr` sets M_EXT without setting `ext_buf`, so freeing the mbuf releases an unset pointer and never the cluster | `DevgetFreem`: what `m_devget` allocates is released by `m_freem` iff the packet is shorter than MINCLSIZE; `FreesWhatWasAllocated`: for any chain, iff it has no cluster |
| net/if_ethersubr.c:187-190 | a frame of unknown type with a small type field is neither queued nor freed | `NothingIsForgotten` |
| hp300/include/endian.h:24-50 | the shifts do not swap bytes | `Involution16`, `Involution32`, `DeltaS`, `DeltaL`, `ArpIsNeverSeen` |

Where `Repaired` has no room in a header mbuf, `sl_btom` takes a cluster, and `m_copym` stays at the source
mbuf until all of it is copied.

Other departures found: `slinit` leaves `sc_escape` and SC_ERROR as the last user of the unit left them
(`SlInit` says when the receiver is fresh, and `StaleFlags` when nothing is lost by it); `slclose` flushes
if_snd but not sc_fastq (`CloseDown`); `m_free` writes the header length and rcvif into the next mbuf, where they
lie over the beginning of the data area of a plain mbuf (`MFree`; `BytesSurvive` says which data survives, and
`FreeKeepsBytes` that it does); `sloutput` tests CLOCAL in `t_flags` where `slinput` tests `t_cflag`, and SC_NOICMP in
`if_flags` although `slattach` sets it in `sc_flags` (both are parameters); a buffer from `malloc` is released
through `MCLFREE` (one allocator here); `IN_FIRST_MULTI` lacks a parenthesis; `ipintrq` starts with limit 0, and
only `ether_input` sets it (`NothingQueuedBeforeEthernet`). The comment at kern/uipc_mbuf.c:41-42 has the two
directions of `m_adj` the wrong way round; the model follows the code.

Sizes follow `sys/mbuf.h` with 64-bit pointers and 32-bit `long`: MSIZE 128, MLEN 88, MHLEN 72,
MINCLSIZE 160. SLMAX is 2048 - 136 = 1912.

## Model

| member | source | states |
|---|---|---|
| SlipCodec.EscapeAppend | net/if_sl.c:450-488 | Escaping two stretches one after the other is escaping them together. |
| SlipCodec.EscapePieces | net/if_sl.c:450-488 | However a packet is cut into pieces, escaping piece by piece gives the same bytes. |
| SlipCodec.EscapeShape | net/if_sl.c:450-488 | The body of a frame never contains FRAME_END and is as long as the packet plus one byte per special byte, so at most twice as long. |
| SlipCodec.EscapeAt | net/if_sl.c:470-484 | The octets on the wire, as numbers: where a 0xc0 of the packet comes, they are 0xdb 0xdc, for a 0xdb they are 0xdb 0xdd, and each other byte stands for itself. |
| SlipCodec.RunKeepsBounds | net/if_sl.c:298-314 | Over any run of characters the buffer stays within SLMAX, and whatever is handed up is 3 to SLMAX bytes of an IP version 4 packet, hence shorter than a cluster. |
| SlipCodec.OctetStored | net/if_sl.c:208-306 | What an octet does in every state of the receiver, as numbers: 0xdb escapes, 0xdc and 0xdd behind it are stored as 0xc0 and 0xdb, each other octet is stored as it is, and the one behind the 1912th spoils the frame and counts as an error. |
| SlipCodec.FrameEnded | net/if_sl.c:227-301 | What 0xc0 does in every state: the buffer is handed up iff there was no error and it holds 3 bytes or more, the first from 0x40 to 0x4f; what counts as an error; and the state behind it in each form. |
| SlipCodec.Resynchronises | net/if_sl.c:227-314 | In every state FRAME_END leads to the fresh state; as written, exactly when it does not hand a packet up. |
| SlipCodec.NoiseIsForgotten | net/if_sl.c:200-235 | Whatever the receiver has been through, after the next FRAME_END the rest of the stream is received as by a fresh receiver. |
| SlipCodec.UnescapeEscape | net/if_sl.c:211-225 | Undoing the escapes of an escaped packet gives the packet. |
| SlipCodec.InsideFrame | net/if_sl.c:200-306 | Inside a frame the buffer holds exactly the unescaped bytes so far, or the error flag is up: after a line error or an overflow. |
| SlipCodec.ReceiverIsReference | net/if_sl.c:183-314 | On every stream of characters, spoilt ones included, the state machine delivers what an independent reading delivers that cuts the stream at the FRAME_ENDs and judges each frame by itself. |
| SlipCodec.DamagedFrameIsLost | net/if_sl.c:200-235 | A frame hit by a line error or longer than the buffer is never delivered, and leaves a fresh receiver. |
| SlipCodec.StreamRoundTrip | net/if_sl.c:208-314 | For every list of packets of 3 to SLMAX bytes with first nibble 4, with any numbers of extra FRAME_ENDs, the wire is received as exactly these packets in order. |
| SlipCodec.FirstFrame | net/if_sl.c:227-301 | From the fresh state a well-formed frame is handed up at once, and the rest goes on from the state the form says. |
| SlipCodec.InPlaceIff | net/if_sl.c:227-314 | For every list of such packets and any numbers of extra FRAME_ENDs, each frame's own FRAME_END hands up its packet and no other FRAME_END hands up anything: repaired, always; as written, iff every packet but the last fills the buffer and an extra FRAME_END comes before every frame but the first. |
| SlipCodec.InPlaceDelivers | net/if_sl.c:227-314 | Then the packets delivered are those sent, in order. |
| SlipCodec.AsWrittenStreamRoundTrip | net/if_sl.c:281-301 | As written, frames sent without extra FRAME_ENDs come out as the packets sent, in any way, iff there is at most one. |
| SlipCodec.StaleCopyCanMatch | net/if_sl.c:281-301 | As written and with an extra FRAME_END between them, a long packet and the same packet with 0x40 behind it are received as sent, although the second frame is lost. |
| SlipCodec.StaleFlags | net/if_sl.c:149-235 | A receiver with an empty buffer but stale flags receives every packet of a wire iff a FRAME_END comes first or the error flag is not set. |
| SlipWire.BodyIsEscaped | net/if_sl.c:450-488 | What the loops over mbufs and runs put on the wire is the escaped flat contents, however the packet is cut into mbufs. |
| SlipWire.BodyAsWritten | net/if_sl.c:457-484 | As written this holds iff the packet is empty. |
| SlipWire.LastByteIsLost | net/if_sl.c:457-484 | As written, a packet in one mbuf is sent as it is but for its last byte. |
| SlipWire.Scan | net/if_sl.c:457-468 | The scan stops at the first special byte or at the end, and passes over no special byte. |
| SlipWire.SendPiece | net/if_sl.c:452-484 | The run-scanning loop over one mbuf queues as much of its escaped bytes as there is room for. |
| SlipWire.SendBody | net/if_sl.c:450-488 | The loop over the mbufs queues as much of the body as there is room for, counts the bytes as the form says, and releases each mbuf by MFREE, in order. |
| SlipWire.CountIsLength | net/if_sl.c:468-484 | What the loop counts is the length of the body; as written, iff the packet is empty. |
| SlipWire.Clist.Putc | net/if_sl.c:444-448 | putc appends a byte, or reports that there is no room and changes nothing. |
| SlipLine.Receiver.SlInit | net/if_sl.c:149-160 | slinit leaves an empty buffer with the pointers in it, a new one unless the unit has one, and the flags as they were; so the receiver is fresh iff neither sc_escape nor SC_ERROR was set. |
| SlipLine.Receiver.Input | net/if_sl.c:183-314 | A call with an error bit set, or without carrier, sets SC_ERROR and does nothing else; each other call makes the step of the state machine for the low byte of its argument, within its buffer; a packet it completes becomes one mbuf with those bytes and a right header length, is queued, or dropped and all of it freed, and the counters of packets, errors and drops move accordingly. As written, for packets of up to 72 bytes. |
| SlipLine.QueuedOrDropped | net/if_sl.c:281-296 | A packet handed up counts in if_ipackets; it is queued last when there is room, and otherwise freed and counted as a drop of the queue, an error, and a drop of the interface. |
| SlipLine.Receiver.Judge | net/if_sl.c:227-272 | A FRAME_END accepts the packet iff there was no error, it has 3 bytes or more and its first nibble is 4; otherwise the receiver is fresh, and only a malformed packet counts as an error. |
| SlipLine.Receiver.SlBtom | net/if_sl.c:162-181 | The new mbuf holds the buffer's bytes with the right header length: as written in a header mbuf, for at most 72 bytes; repaired in a cluster above that. The branch for a whole cluster is dead. |
| SlipLine.CopyStaysInside | net/if_sl.c:166-171 | The copy into a header mbuf stays inside it iff there are at most 72 bytes. |
| SlipLine.Transmitter.SendPacket | net/if_sl.c:444-501 | A packet is framed in full, with a leading FRAME_END iff the line was idle, or, when the clists run out, cut short and still ended by FRAME_END and counted as a collision; its mbufs are released by MFREE, and if_obytes grows by the frame's count. |
| SlipLine.FrameCountIsLength | net/if_sl.c:444-501 | For a frame sent in full, if_obytes grows by its length; as written, never, for it grows by the length of the packet and two, and one for a leading FRAME_END. |
| SlipLine.CutFrameCount | net/if_sl.c:490-501 | For a frame cut short, it grows by what the whole frame would have counted without its last FRAME_END. |
| SlipLine.NoCollisions | net/if_sl.c:437-501 | if_collisions grows by at most one for a packet, and by nothing iff every packet was framed in full. |
| SlipLine.Transmitter.EndPacket | net/if_sl.c:490-501 | When there is no room for the FRAME_END, the last byte queued makes way for it, which counts as a collision and not in if_obytes. |
| SlipLine.Transmitter.Next | net/if_sl.c:399-405 | The next packet is the first of sc_fastq, counted in if_omcasts, and of if_snd only when sc_fastq is empty. |
| SlipLine.Transmitter.Start | net/if_sl.c:375-503 | slstart takes the waiting packets in order, each when at most 96 bytes are queued downstream, frees those it finds fewer than 1320 clist bytes free for and frames the others, with a leading FRAME_END iff the line is idle, within the room there is; it adds exactly their frames to the wire, the freed and shortened ones to if_collisions and their counts to if_obytes, releases exactly their mbufs and buffers, in order, and stops only when none waits or more than 96 bytes are queued; it terminates. |
| SlipLine.Transmitter.Admit | net/if_sl.c:316-365 | sloutput refuses a packet for exactly the listed reasons with the listed errors, freeing all of it, and otherwise queues it: last in sc_fastq when bit 4 of its second byte is set, last in if_snd when it is not. |
| SlipLine.RefusedFor | net/if_sl.c:327-366 | The errors, as numbers, each with the exact condition under which it is given. |
| SlipLine.StoredIsHeader | net/if_sl.c:323-354 | When the first mbuf has an IP header, the second and tenth byte that sloutput reads are the packet's own. |
| SlipLine.Transmitter.Output | net/if_sl.c:316-372 | sloutput as a whole: admission, then on an idle line, and on no other, what slstart does, with all that is released. |
| SlipLine.Transmitter.IfDown | net/if_sl.c:512-514 | if_down, and if_qflush in it (net/if.c), release all packets of if_snd in order, count them as dropped, and leave the interactive queue. |
| SlipLine.ClassesKeepOrder | net/if_sl.c:399-405 | Taking k packets takes from the front of sc_fastq, and from the front of if_snd only what is left of k. |
| SlipRun.ShortIsFramedInFull | net/if_sl.c:437-503 | A packet whose length and number of special bytes make at most 1318, together, is never cut short (1318 being CLISTRESERVE + SLMTU - 2). |
| SlipRun.AllShortAreFull | net/if_sl.c:437-503 | So when all packets are such, every packet that is not freed is framed in full. |
| SlipRun.SentIsWire | net/if_sl.c:437-503 | When no frame was cut short, what slstart has put on the wire is the wire of the packets it did not free. |
| SlipRun.WhatIsSentIsReceived | net/if_sl.c:183-503 | For all packets the line carries: a fresh receiver on a clean line delivers one packet for each taken and not freed, in the order taken, which is the packet sent or, when its frame was cut short, its first bytes; they are the packets sent iff no frame was cut short; and the receiver ends fresh. |
| SlipRun.FourteenHundredBytes | net/if_sl.c:490-496 | A packet that is cut: of 1400 plain bytes sent on an idle line with the least room, the first 1318 arrive, as a packet. |
| SlipRun.LongFrameOverruns | net/if_sl.c:162-181 | As written, every packet of 73 to 1912 bytes that a frame delivers is too long for the header mbuf it is copied to. |
| SlipRun.SeventyThreeBytes | net/if_sl.c:162-181 | The shortest such frame. |
| SlipRun.Receive | net/if_sl.c:183-314 | Any run of slinput with queue room queues exactly the packets the state machine delivers, one mbuf each: repaired, all runs; as written, runs that deliver packets of up to 72 bytes. |
| SlipRun.BadFrameIsLost | net/if_sl.c:200-235 | Of the raw calls of slinput: a frame with one call in it that has an error bit set or comes without carrier hands up nothing at its FRAME_END, in any state and whatever else is in it, and leaves a fresh receiver. |
| SlipRun.LoseFrame | net/if_sl.c:183-314 | Such calls of slinput leave the IP input queue as it is. |
| SlipRun.Carry | net/if_sl.c:183-503 | Repaired, from the transmitter's chains to the IP input queue: one mbuf is queued for each packet taken and not freed, in order, with its bytes or, when its frame was cut short, its first bytes; they are the packets sent iff no frame was cut short. |
| SlipRun.EachClassIsFifo | net/if_sl.c:351-405 | Over any interleaving of output and transmission, each class is first in, first out, and loses nothing. |
| SlipRun.InteractiveWait | net/if_sl.c:399-405 | An interactive packet with k before it is the (k+1)st packet taken, whatever else is queued. |
| SlipRun.BulkWait | net/if_sl.c:399-405 | Another packet is taken within as many turns as there are packets before it and interactive packets put in meanwhile. |
| SlipRun.StartIsTakes | net/if_sl.c:386-405 | What slstart does to the two queues is a run of takes of the scheduling model. |
| SlipRun.RunWork | net/if_sl.c:316-503 | Any run of calls of sloutput and slstart, in any order, is a run of that model: accepted packets are put in their classes, those of sc_fastq being exactly those with bit 4 of the second byte set; the packets taken are those it takes, each framed or freed, the wire grows by what is sent of them, and of each class, the packets taken and then those that wait are those that waited and then those accepted. |
| SlipRun.RunIsFifo | net/if_sl.c:316-503 | The last part of it: in such a run each class hands out the packets accepted in it, in order, and keeps the rest. |
| SlipUnits.Boot | net/if_sl.c:85 | The zeroed table of units satisfies the invariant, with no unit bound. |
| SlipUnits.Slip.Open | net/if_sl.c:126-147 | slopen binds the first free unit, sets its speed, and leaves it with an empty buffer and the flags it had; it gives ENXIO iff none is free, leaves a terminal in the discipline alone, and keeps the links one to one iff it is not used on a bound terminal outside the discipline while a unit is free. |
| SlipUnits.Slip.OwnNew | net/if_sl.c:131-160 | slinit of a free unit gives it a buffer that no other unit has. |
| SlipUnits.Slip.OpenLine | net/if_sl.c:126-147 | With the tty layer's part, the links between terminals and units, and between units and buffers, are kept. |
| SlipUnits.Slip.Close | net/if_sl.c:505-522 | slclose unbinds the terminal and frees the unit's own buffer through the pointer to its first byte, and no other. |
| SlipUnits.Slip.CloseDown | net/if_sl.c:505-522 | With the call of if_down, the packets of the if_snd of the unit that is closed are released and counted as drops, and those of its sc_fastq stay queued. |
| SlipUnits.Slip.AllBusyIffFull | net/if_sl.c:131-146 | All units are busy iff NSL terminals are bound. |
| SlipUnits.Slip.RunCalls | net/if_sl.c:126-522 | Over all runs of opens and closes the invariant holds, the bound terminals are as a set model says, and an unbound terminal is refused iff NSL others are bound. |
| Mbufs.MTotalLen | kern/uipc_mbuf.c:29-39 | The sum of m_len is the length of the contents. |
| Mbufs.MAdj | kern/uipc_mbuf.c:43-101 | m_adj leaves every mbuf with the bytes the specification says, and the header length with it. |
| Mbufs.AdjustedRepaired | kern/uipc_mbuf.c:43-101 | A positive length takes bytes off the head, a negative one off the tail, and the header length stays right. |
| Mbufs.AdjustedHead | kern/uipc_mbuf.c:53-85 | In either form a positive length takes that many bytes off the head and off the header length. |
| Mbufs.HeaderAsWritten | kern/uipc_mbuf.c:87-99 | As written, the header length is right after a tail trim iff more is asked for than there is. |
| Pieces.TrimHeadDrops | kern/uipc_mbuf.c:53-67 | Skipping, emptying and shortening mbufs drops exactly that many bytes of the flat contents. |
| Pieces.KeepTakes | kern/uipc_mbuf.c:87-99 | Keeping the first bytes and emptying the later mbufs leaves exactly the first bytes of the flat contents. |
| Pieces.TailTrimAsWritten | kern/uipc_mbuf.c:87-99 | As written, the tail trim is right for all chains of a shape iff at most one mbuf is non-empty. |
| Pieces.WalkMeasures | kern/uipc_mbuf.c:214-223 | A walk that skips whole mbufs stops inside the chain iff the offset is within the contents, at that offset. |
| MbufBuild.MCat | kern/uipc_mbuf.c:104-136 | m_cat links the chains into one whose contents are the concatenation, and keeps the header length right. |
| MbufBuild.MPrependSlow | kern/uipc_mbuf.c:496-519 | m_prepend puts a new mbuf in front, moves the packet header to it and leaves the old chain as it is; the new mbuf's bytes lie at the end of 72, aligned to 4, when they fit there, and lie in its storage iff no more are asked for than it holds. |
| MbufBuild.MPrepend | kern/uipc_mbuf.c:491-519 | Prepending leaves the contents behind the new bytes and the header length right iff the length fits in front or in a new mbuf; otherwise the new head claims more than it stores. The head stays iff there is more room in front than is asked for (the macro M_PREPEND of sys/mbuf.h and its slow path). |
| MbufBuild.PrependThenTrim | kern/uipc_mbuf.c:43-519 | Prepending and then trimming the same length off the head leaves contents and header length as they were. |
| MbufBuild.MCopydata | kern/uipc_mbuf.c:212-235 | m_copydata yields that stretch of the flat contents. |
| MbufBuild.MDevget | kern/uipc_mbuf.c:304-352 | m_devget builds a fresh chain with exactly the bytes asked for, header length len, 72 bytes in the first mbuf and 88, or from a length of 160 on 2048, in each later one but the last, and with a new cluster for each mbuf but the first iff len is at least 160; as written, no ext_buf is set. |
| Pieces.ChunksConcat | kern/uipc_mbuf.c:318-349 | The pieces of m_devget together are the data. |
| Pieces.ChunksFill | kern/uipc_mbuf.c:332-349 | Every piece fits its mbuf and only the last is not full. |
| Pieces.ChunksCount | kern/uipc_mbuf.c:318-349 | The number of mbufs is one plus the rest divided by the capacity, rounded up. |
| MbufBuild.MCopym | kern/uipc_mbuf.c:238-301 | m_copym yields a fresh chain of the specified pieces; it leaves the source as it was, or, when the stretch goes beyond it, lengthens it by just as many mbufs of zeros as it takes. The header length of the copy is right iff repaired or nothing is copied. |
| MbufBuild.CopiedConcat | kern/uipc_mbuf.c:238-301 | Those pieces are the stretch asked for, with zeros beyond the contents, also over empty mbufs and at mbuf boundaries; repaired, each fits its mbuf. |
| MbufBuild.CopymAsWritten | kern/uipc_mbuf.c:283-297 | As written each piece fits its mbuf iff at most MHLEN bytes are taken of the first mbuf of the stretch and at most MLEN of each later one. |
| Pieces.TakesAllItCan | kern/uipc_mbuf.c:283-297 | Each piece is as long as what is left of its source mbuf, of the stretch or, repaired, of the new mbuf, whichever is least. |
| MbufBuild.FullMbufOverruns | kern/uipc_mbuf.c:283-297 | As written, a full plain mbuf cannot be copied whole. |
| MbufBuild.ExtendedReaches | kern/uipc_mbuf.c:246-281 | The lengthened source reaches the end of the stretch, has no mbuf more than that needs, and holds zeros behind its old contents. |
| MbufCopyback.MCopyback | kern/uipc_mbuf.c:152-209 | m_copyback, repaired, makes the contents those of the specification, extends the chain by new mbufs only, and leaves the header length right. |
| MbufCopyback.CopiedBackLaw | kern/uipc_mbuf.c:152-209 | The specification: the new bytes at the offset, every other old byte unchanged, zeros in a gap, and the larger of the two lengths. |
| MbufCopyback.CopybackCopydata | kern/uipc_mbuf.c:152-235 | m_copydata after m_copyback returns what was copied in. |
| MbufCopybackAsWritten.CopybackAsWritten | kern/uipc_mbuf.c:139-209 | As written, for every chain of flags, rooms behind m_data and lengths, every offset and positive number of bytes: m_copyback has its effect for all contents, and writes only inside mbufs, iff the mbufs it passes make up for the offset it counts for them, and the second loop meets its own condition on flags, room, length and offset. |
| MbufCopybackAsWritten.CopybackOfNothing | kern/uipc_mbuf.c:152-209 | For no bytes it does its work iff the offset is within the contents. |
| MbufCopybackAsWritten.MarkedHeaderOverruns | kern/uipc_mbuf.c:139-182 | A header mbuf with another flag set, as of a broadcast packet, counts as plain: behind its 72 bytes m_copyback writes outside of it. |
| MbufCopybackAsWritten.CopybackHeaderAsWritten | kern/uipc_mbuf.c:139-209 | As written, it leaves the header length right iff the mbufs that were there gain nothing, together. |
| MbufCopybackAsWritten.GainedIsGrowth | kern/uipc_mbuf.c:139-209 | When no mbuf holds more than get_total_len says, that is when none of them gets longer. |
| MbufFree.MFreem | kern/uipc_mbuf.c:390-407 | m_freem frees each external buffer and each mbuf, in order. |
| MbufFree.ReleasedAt | kern/uipc_mbuf.c:390-407 | The mbufs are released in the order of the chain, each external buffer right before its mbuf. |
| MbufFree.ReleasedExactlyOnce | kern/uipc_mbuf.c:390-407 | With distinct clusters, everything is released exactly once. |
| MbufFree.FreesWhatWasAllocated | kern/uipc_mbuf.c:390-407 | For a chain with clusters from m_getclr, what m_freem releases is, as a multiset, what was allocated: repaired, always; as written, iff there is no cluster. |
| MbufFree.DevgetFreem | kern/uipc_mbuf.c:304-407 | m_devget and then m_freem release each mbuf and cluster that was allocated, once, and nothing else; as written, iff len is below MINCLSIZE. |
| MbufFree.MFree | kern/uipc_mbuf.c:359-388 | m_free releases the head and hands its type, its flags, the rest of the header length and rcvif to the next mbuf; when that one has its data in its own area, the two header fields are written over the beginning of the area. |
| MbufFree.StampedBytes | kern/uipc_mbuf.c:381-383 | The area then has the length in bytes 0 to 3, when it is written, rcvif in bytes 8 to 15, and each other byte as it was. |
| MbufFree.BytesSurvive | kern/uipc_mbuf.c:381-383 | Data in the area of the next mbuf survives this, whatever the header is, iff it lies behind the header area or beside the fields that are written. |
| MbufFree.FreeKeepsBytes | kern/uipc_mbuf.c:359-388 | So m_free leaves the bytes of the next mbuf when they are in a cluster or lie there. |
| MbufFree.MacroReleasesAll | net/if_sl.c:486-487 | MFREE on each mbuf of a chain releases what m_freem does; as written, iff there are no mbufs. |
| MbufFree.FreeByOne | kern/uipc_mbuf.c:359-388 | Freeing the head again and again releases the specified list, and at each step the head carries the length of what is left and rcvif. |
| MbufFree.RepairedReleases | kern/uipc_mbuf.c:359-407 | Repaired, that list is the one of m_freem. |
| MbufFree.FreeByOneAsWritten | kern/uipc_mbuf.c:379-379 | As written it is iff the mbufs with clusters come last. |
| Ifqueues.Ifqueue.Enqueue | net/if.h:212-226 | IF_ENQUEUE appends, whatever the stale tail and the stale m_nextpkt are. |
| Ifqueues.Ifqueue.Prepend | net/if.h:228-240 | IF_PREPEND puts in front. |
| Ifqueues.Ifqueue.Dequeue | net/if.h:242-251 | IF_DEQUEUE takes the first, or gives null on an empty queue. |
| Ifqueues.Ifqueue.HeadIsNullIffEmpty | net/if.h:212-251 | The head is null iff the length is 0. |
| Ifqueues.RunAll | net/if.h:212-251 | Any run of the three operations, re-enqueueing dequeued mbufs included, is the same run on a sequence. |
| Ifqueues.RunConserves | net/if.h:212-251 | Over any run, the packets that were there or were put in are, as a multiset, those that came out or stay. |
| Ifqueues.RunIsFifo | net/if.h:212-251 | Without IF_PREPEND what comes out and what is left is what was there and what was put in, in order. |
| IfOffer.Offer | net/if_loop.c:110-117 | The test of all producers: queued last when there is room, else counted as a drop and all of it freed. |
| IpInput.Inputs.EtherInput | net/if_ethersubr.c:149-202 | ether_input makes exactly the step of the packet model, sets the limit and the flags (M_BCAST when all octets of the address are 0xff, M_MCAST when they are not and the first is odd), and counts the bytes and 14 more. |
| IpInput.KindByOctets | net/if_ethersubr.c:179-187 | A frame is IP iff the octets of its type are 08 00, and ARP iff they are 08 06; as written, IP iff the first is 08, and never ARP. |
| IpInput.FrameByType | net/if_ethersubr.c:163-201 | Repaired, on an interface that is up: a frame 08 00 becomes the last of the IP queue, whose limit is then 50, and a frame 08 06 the last of the ARP queue, when there is room, and otherwise a counted drop; a frame of another type is freed; and the other queue stays as it is. |
| IpInput.Inputs.LoOutput | net/if_loop.c:56-123 | looutput makes its step of the packet model, reports the right error on each path and counts what it sent and received. |
| IpInput.LoopErrorFor | net/if_loop.c:85-115 | The errors of looutput, as numbers, each with the exact condition under which it is given. |
| IpInput.Inputs.SlInput | net/if_sl.c:281-296 | slinput offers the packet it completes to the same queue, and frees all of it when there is no room. |
| IpInput.RunConserves | net/if_ethersubr.c:163-201 | Whatever the interleaving, the packets queued, handed on, freed and forgotten are, as a multiset, those of the start and those handed in. |
| IpInput.NothingIsForgotten | net/if_ethersubr.c:187-190 | No packet is forgotten; as written, iff no frame of unknown type arrives on an up interface with a stored type of at most 1500. |
| IpInput.RunIsBounded | net/if_ethersubr.c:193-201 | The queues stay within their limits over any run. |
| IpInput.OfferedIsAccountedFor | net/if_loop.c:110-117 | Over any run, the packets offered to the IP queue (frames with the octets 08 00 on an interface that is up, loopback packets of family 2 that no route rejects, slip packets) are those dequeued, those queued and those counted as drops. |
| IpInput.OfferedArpIsAccountedFor | net/if_ethersubr.c:184-201 | The same for the ARP queue and the frames with the octets 08 06; as written, none is offered. |
| IpInput.NothingQueuedBeforeEthernet | netinet/ip_input.c:64 | Until the first Ethernet frame, the other producers' packets are all dropped. |
| IpInput.ArpIsNeverSeen | net/if_ethersubr.c:179-187 | As written no frame is taken for ARP, and IP is recognised by the high byte alone. |
| IpInputRun.RunCalls | net/if_ethersubr.c:149-202 | Any run of calls of ether_input, looutput, slinput and the dequeueing protocols, in any order, on the heap is a run of the packet model, in which slinput hands in just the packets the line's state machine delivers; and each packet handed in ends in exactly one place. |
| VjCode.Cursor.Encode | net/slcompress.c:46-55 | ENCODE appends one octet, the number modulo 2^16, when that is below 256, and else 0 and the two octets of it, the high one first; it moves cp behind them and changes nothing else. |
| VjCode.Cursor.EncodeZ | net/slcompress.c:56-65 | ENCODEZ does the same, but writes three octets for zero. |
| VjCode.Cursor.DecodeL | net/slcompress.c:67-74 | DECODEL adds the number at cp to a 32-bit field and uses up its octets. |
| VjCode.Cursor.DecodeS | net/slcompress.c:76-83 | DECODES does so for a 16-bit field. |
| VjCode.Cursor.DecodeU | net/slcompress.c:85-92 | DECODEU sets a 16-bit field. |
| VjCode.NumberRoundTrip | net/slcompress.c:42-92 | A number is read back, and only its octets are used up, iff it is not zero modulo 2^16 or was written by ENCODEZ. |
| VjCode.NumberOctets | net/slcompress.c:67-92 | A number is read from its octets: 256 times the second and the third when the first is 0, and the first otherwise. |
| VjCode.RecordRoundTrip | net/slcompress.h:17-31 | For every mask and whatever follows, the flagged numbers in the fixed order are read back exactly, and take at most 15 octets. |
| VjCode.RecordLayout | net/slcompress.h:17-31 | The record holds, in this order and each when it is flagged, the urgent pointer by ENCODEZ, the window, acknowledgement and sequence number by ENCODE, and the packet identification by ENCODEZ. |
| VjCode.RecordLength | net/slcompress.c:46-65 | A record takes one octet for each flagged number below 256, and three for each other and for a zero that ENCODEZ writes. |
| VjCode.WritePlaces | net/slcompress.c:46-65 | ENCODE and ENCODEZ write the flagged numbers of a record into an array, behind what is there and before what follows. |
| VjCode.ReadFields | net/slcompress.c:67-92 | DECODEU, DECODES and DECODEL, in either form, read a record from an array into the stored header, and use up just its octets. |
| VjCode.ThroughArray | net/slcompress.c:46-92 | A record written into an array and read back takes the receiver from the sender's last header to its next one, with what follows unchanged: repaired, always; as written, iff no low byte of a flagged 16-bit field becomes smaller, and each flagged 32-bit field keeps its high byte and gets a zero behind it. |
| VjCode.DeltaS | net/slcompress.c:76-83 | A 16-bit field takes the sender's new value; as written, iff the low byte has not become smaller. |
| VjCode.DeltaL | net/slcompress.c:67-74 | A 32-bit field does, modulo 2^32, for differences below 2^16; as written, iff the high byte is kept and the next is zero. |
| VjCode.ReceiverFollowsSender | net/slcompress.c:46-92 | Over any run of records in one stream, the receiver's header equals the sender's after every record, and what follows is left: repaired, always; as written, iff every record of the run meets that condition. |
| VjCode.SwapOctets | hp300/include/endian.h:31-36 | htons exchanges the two octets of a number; as written, it clears the low one. |
| VjCode.SwapFourOctets | hp300/include/endian.h:24-29 | htonl turns the four octets round; as written, it leaves the high one, puts octet 2 in place 1, and clears the others. |
| VjCode.Involution16 | hp300/include/endian.h:31-36 | A 16-bit value in network order reads back; as written, iff its low byte is zero. |
| VjCode.Involution32 | hp300/include/endian.h:24-29 | The same for 32 bits; as written, iff all but the high byte are zero. |
| Multicast.InMultistep.Next | netinet/in_var.h:139-154 | IN_NEXT_MULTI yields the next record still to come, or null when there is none. |
| Multicast.InMultistep.First | netinet/in_var.h:156-163 | IN_FIRST_MULTI yields the first record of all. |
| Multicast.VisitAll | netinet/in_var.h:132-163 | First and repeated next visit exactly the concatenation of the lists in order, empty lists skipped, and end. |
| Multicast.VisitedOnce | netinet/in_var.h:132-163 | Disjoint lists without repetitions are visited without repetitions. |

## Left out

- MbufBuild.MCopydata: the destination is a returned value, not a caller's buffer; it asks for the stretch to lie within the contents, because the source follows a null pointer beyond them.
- MbufBuild.MDevget: the copy function and the interface argument, which the source ignores too.
- MbufBuild.MCopym: as written, it asks for what CopymAsWritten says; the copy would leave the new mbuf otherwise, and a stretch that begins further beyond the contents than one mbuf reaches gives a negative number of bytes to copy.
- MbufBuild.MPrependSlow: allocation failure.
- Mbufs.MAdj: a positive length longer than the contents, on which the source follows a null pointer.
- MbufCopybackAsWritten.CopybackAsWritten: the text of m_copyback is modelled on values rather than in place; there must be a chain, since the source links new mbufs behind its head without a test.
- MbufFree.MFree: how the length and the pointer are represented in memory is a parameter. The reference count is always 0 in the source.
- MbufFree.MFreeMacro: the test of ext_free, which nothing in the source sets and which is taken to be null.
- IpInput.Inputs.LoOutput: for an mbuf that is no packet header, for which the source prints a message and goes on, the store of rcvif into its data area.
- IpInputRun.RunCalls: each packet is handed in once in a run, and the slip packets come from one line.
- SlipLine.Receiver.SlBtom: as written, what becomes of the memory behind an mbuf that is overrun.
- SlipLine.Transmitter.SendPacket: the packet filter and time stamps.
- SlipLine.Transmitter.Admit: asks for the header fields that sloutput comes to read (the second byte, and the tenth when ICMP is refused) to lie in the storage of the first mbuf, whatever its m_len is.
- SlipLine.Transmitter.IfDown: the notices to the protocols and to the routing socket.
- SlipUnits.Slip.Open: the flush of the tty, whose body is empty in the source.
- SlipUnits.Slip.Close: the wait for the output of the tty, whose body is empty in the source.
- slinput and slstart on a terminal without a unit return at once; the model has a unit.
- IpInput.Inputs.EtherInput: the reset of time stamps.
- The consumers of ipintrq and arpintrq are not in the source; taking a packet from them is IF_DEQUEUE.
- Mbuf storage is a field of the mbuf, so aliasing between an mbuf and a caller's buffer is not modelled.
- The bodies of sl_compress_tcp and sl_uncompress_tcp are empty in the source: compression is off, and a packet whose first nibble is not 4 is an error.
- The choice of flags and the special cases of a compressed header: the functions that make it are not in the source; records with any mask are covered.
- putc, b_to_q and unputc have no bodies in the source; they are modelled as a byte queue with a number of free places.
- ether_output, m_pullup, the device drivers, routing, ioctl requests, the packet filter, and the domain tables.
