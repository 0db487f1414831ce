# Verified model of the e-paper frame: panel, device and backend kernels

The system is a battery e-paper panel, its ESP32 firmware (C), a Go backend, and a TypeScript render worker.
This project models the parts of it that keep state or do arithmetic which must agree with a simpler
specification, and proves that they agree. Each file holds one module. Every theorem is for all inputs, all
buffers, all runs or all interleavings, as stated.

* **Panel pipeline.** `Bwry` (palette argmin, row mirror, 2bpp packing), `Dither` (in-place Atkinson diffusion
  against a recurrence), `Framebuffer` (firmware drawing and the host decoder), `Thumbnail` (box filter).
* **C2 command channel.** `C2` is one device, its backend, the messages between them and the operator as a step
  system; `C2Invariants` and `C2Delivery` hold what every step keeps, `C2Runs` puts runs together, `C2Channel` has the
  theorems about runs, `C2Deliverable` says which commands can still be delivered when the promise breaks. `C2Device`
  is the device's poll routine, `CommandStore` the operator's enqueue as separate statements, `Session` the counter
  check, `Notifier` the long-poll wakeup.
* **Stores.** `Rtc` (flat key-value buffer against a finite map), `FlashStore` (staged writes and atomic rename
  under failing calls and power loss).
* **Crypto.** `Sha1` (streaming context against FIPS 180-4), `Hotp` (RFC 2104 and RFC 4226, firmware and backend).
* **Caches and concurrency.** `SingleFlight`, `FrameCache`, `RateLimit` and `BasicCache` over `Lru`.
* **Wire.** `Framing` (length-prefixed frames under any chunking), `Daemon` (partial writes, slots).
* **Power.** `LowBattery` (the wake gate over whole runs).

`Machine` holds the integer types shared by the models.

## What the proofs found

Some properties that the code or its documentation suggests do not hold as such. For each there is a lemma (or, for
`Enqueue`, a method) with a concrete input or run that fails, and the exact condition under which the property holds.

* `rtc__find` can scan forever on bytes that no `set` wrote, because the entry size is cut to 16 bits
  (`Rtc.NoiseCanStall`). It diverges exactly if it comes to an offset that a round sends back to itself
  (`Rtc.ScanDivergesIffStuck`), and those are exactly the complete entries of other keys whose size is 65536
  (`Rtc.RoundRepeatsIffWraps`); no buffer reached through set and del has one.
* The ack of a command is parsed with a 32-bit `strtoul`. A command whose seq is above 2^32-1 is run and acked twice
  in `C2Deliverable.WideCommandRunsTwice`; storing an ack closes the command exactly if its seq fits
  (`C2Deliverable.AckClosesIffNarrow`). The theorems on delivery carry `narrow`: the seqs of the commands that target
  the device fit 32 bits.
* The cursor moves by seq, so a command that commits after a higher seq of the same device was acked is skipped
  (`C2Deliverable.LateCommitIsSkipped`). In every reachable state, a command of the device that is not yet acked is
  acked in some continuation exactly if its seq is above the device's ack and it is in the device's hands or not
  blocked by a lower command beyond 32 bits (`C2Deliverable.DeliverableIff`); for seqs that fit, exactly if it is above
  the ack (`C2Deliverable.DeliverableIffAboveAck`). None is ever skipped if the commands that target the device, its
  own and the fleet's, become visible in seq order (`ordered`), whatever the order of other devices' commands.
* `Enqueue` reads a duplicate's seq back in a second statement. A duplicate gets the pending command's seq exactly
  unless an ack of that command lands between the two (`CommandStore.Store.EnqueueCommand`); in
  `CommandStore.SubmitTwiceAckBetween` one does, and the call fails with a driver error although nothing is wrong.
* The single-flight re-check treats a failed database read as a miss, and the insert is `ON CONFLICT DO NOTHING`, so a
  caller can return bytes that are not the stored ones (`SingleFlight.BlindRecheckReturnsOtherBytes`). For each
  variant, all successes have the stored bytes exactly if no successful write found other bytes in its row
  (`SingleFlight.CallersReturnStoredBytes`); that takes a blind re-check of that variant, and cannot happen if renders
  of a variant always give the same bytes (`SingleFlight.SameBytesNeverClash`). Every answered caller has the stored
  bytes exactly if, besides, no load, render or write of that variant failed (`SingleFlight.CallersAreServed`).
* `store_kv_read` passes off a prefix as the value exactly if its one-byte probe fails on a longer value
  (`FlashStore.PrefixIffProbeFails`, `FlashStore.Fs.StoreKvRead`); the script binding, which asks for the size first,
  is exact.
* Seeding the hot cache from the shared one restarts the clock. With at most d between two clock readings of one
  request, every frame served as "ok" is younger than one time to live plus d exactly if the version is not
  serial-invariant (`FrameCache.FreshIffNotInvariant`); otherwise it can have every age below twice that
  (`FrameCache.SeedingRestartsClock`), and no higher one (`FrameCache.OkFramesAreTraced`).
* A request whose render fails is answered with the last frame delivered to that serial, after a restart with the last
  one stored for it, and with the error frame exactly if there is neither (`FrameCache.AnswerOf`).
* With room for one key, two keys that take turns are granted every time (`RateLimit.EvictionRefills`). A key that is
  never evicted is rate limited, and a new key is never evicted up to its last use exactly if fewer than `max` other
  keys come between any two operations on it (`RateLimit.ResidentIffSpaced`, `RateLimit.SpacedKeyIsRateLimited`).
* The documented 100 mV gap between the low-battery thresholds is guaranteed exactly if the loaded arm threshold is at
  most 4150 mV (`LowBattery.HysteresisGap`).

The branch of `downscale` for a target cell without a source pixel, which its comment expects at extreme ratios, is
never taken (`Thumbnail.NoEmptyCell`).

## Model

| member | source | states |
|---|---|---|
| `Bwry.NearestCode` | backend/internal/bwry/quantize.go:17-32 | the strict-less loop returns the first index of the least squared distance, also on ties |
| `Bwry.NearestOfPalette` | backend/internal/bwry/quantize.go:17-32 | a palette colour quantizes to its own code |
| `Bwry.CodesNearestColour` | backend/internal/bwry/quantize.go:3-32 | the code of a pixel is the number of the first of black, white, yellow and red at the least squared distance from its upper bytes |
| `Bwry.FlipCodes` | backend/internal/bwry/dither.go:165-172 | row y of the result is row h-1-y of the input, for every size |
| `Bwry.FlipTwice` | backend/internal/bwry/dither.go:161-172 | mirroring is an involution |
| `Bwry.FlipUnique` | backend/internal/bwry/dither.go:161-172 | a plane has one mirror |
| `Bwry.QuantizeFlipped` | backend/internal/bwry/pack.go:56-69 | the running-index loop puts the code of source row h-1-y into row y |
| `Bwry.FusedEqualsFlippedUpright` | backend/internal/bwry/pack.go:52-69 | the fused loop equals upright quantization followed by the mirror |
| `Bwry.Pack2bpp` | backend/internal/bwry/pack.go:73-83 | four codes a byte, leftmost in the high bits, zero fields after a short last group |
| `Bwry.PackedUnique` | backend/internal/bwry/pack.go:73-83 | the fields determine every packed byte |
| `Bwry.PackedInjective` | backend/internal/bwry/pack.go:73-83 | packing loses nothing: planes of codes with the same bytes are equal |
| `Dither.NearestCodeBT601` | backend/internal/bwry/dither.go:92-106 | the running minimum from infinity returns the first nearest palette entry under BT.601 weights |
| `Dither.CodesNearestLuma` | backend/internal/bwry/dither.go:48-106 | the code is that of the first of the four colours nearest under the weights 0.299, 0.587 and 0.114 |
| `Dither.LoadSource` | backend/internal/bwry/dither.go:123-134 | after the load loop every buffer cell holds its source value |
| `Dither.Diffuse` | backend/internal/bwry/dither.go:147-155 | one pixel's six in-place adds bring the buffers from its standpoint to the next pixel's |
| `Dither.QuantizePixel` | backend/internal/bwry/dither.go:140-155 | one pixel of the pass codes it by the recurrence and spreads its error |
| `Dither.QuantizeDitherUpright` | backend/internal/bwry/dither.go:121-159 | for every image size the in-place pass yields the plane of the recurrence that the next three rows spell out |
| `Dither.ReadsSixNeighbours` | backend/internal/bwry/dither.go:136-158 | a pixel reads as its source plus an eighth of the errors of the two pixels on its left, the three above it and the one two rows above, as far as they are on the image |
| `Dither.IncomingFrom` | backend/internal/bwry/dither.go:137-149 | entry by entry, the neighbour that each kernel entry brings an error from |
| `Dither.ErrLeftOver` | backend/internal/bwry/dither.go:143-146 | the error is the value read less the colour of its code |
| `Dither.HeldIsRead` | backend/internal/bwry/dither.go:137-158 | when raster order reaches a pixel, its cell holds all the error it will ever receive |
| `Dither.HeldNextEntry` | backend/internal/bwry/dither.go:147-155 | each kernel entry changes exactly the pixel it points at, by an eighth of the error |
| `Dither.ReadBounded` | backend/internal/bwry/dither.go:121-159 | for every image every value read is in [-765, 1020] and every error in [-1020, 1020] |
| `Dither.PaletteReadsSource` | backend/internal/bwry/dither.go:121-159 | on an image of palette colours nothing is diffused |
| `Dither.PaletteImageIgnoresDither` | backend/internal/bwry/dither.go:67-86 | on such an image dithering and plain quantization give the same plane |
| `Dither.DitheredUnique` | backend/internal/bwry/dither.go:121-159 | the recurrence determines the plane |
| `Dither.PackWithDither` | backend/internal/bwry/dither.go:67-86 | the size and mode errors exactly, else 30000 bytes that are the packed mirror of the plane of the chosen mode |
| `Dither.UprightPlane` | backend/internal/bwry/pack.go:56-69 | the fused plane is the mirror of an upright quantized plane |
| `Framebuffer.ShownOfUpdate` | firmware/main/fb.c:22-29 | setting one 2-bit field changes the viewer's pixel it stands for and no other |
| `Framebuffer.Low2` | firmware/main/fb.c:28 | the two low bits of any code, a negative one included, are its remainder by four |
| `Framebuffer.Screen.Px` | firmware/main/fb.c:22-29 | a write changes only its own pixel, to the low two bits of the code; off screen it changes nothing |
| `Framebuffer.Screen.Fill` | firmware/main/fb.c:31-34 | every pixel shows the code |
| `Framebuffer.Screen.RectFilled` | firmware/main/fb.c:36-41 | exactly the visible part of the rectangle is painted |
| `Framebuffer.Screen.RectOutline` | firmware/main/fb.c:42-45 | exactly the visible part of the outline is painted |
| `Framebuffer.Screen.Rect` | firmware/main/fb.c:36-46 | the two above, and nothing for an empty size |
| `Framebuffer.Screen.PlotOctants` | firmware/main/fb.c:61-64 | the eight calls paint the eight mirror images of the octant point |
| `Framebuffer.Screen.Circle` | firmware/main/fb.c:56-69 | terminates for every radius and paints exactly the visible points of the circle, one a row in each octant |
| `Framebuffer.ArcIsNearestColumn` | firmware/main/fb.c:56-69 | the painted column is the integer nearest to the square root of r*r - y*y |
| `Framebuffer.ArcUnique` | firmware/main/fb.c:56-69 | one point a row |
| `Framebuffer.ArcEnds` | firmware/main/fb.c:60-68 | where the loop stops no later row has a point in the octant |
| `Framebuffer.WalkStep` | firmware/main/fb.c:65-67 | both branches of the midpoint step keep the error term exact and the point nearest to the circle |
| `Framebuffer.FrameIsPackedMirror` | firmware/main/fb.c:11-29 | every frame is the 2bpp packing of the mirror of the plane it shows, as the backend packs it |
| `Framebuffer.DecodeRecoversPlane` | firmware/host/fb2png.py:15-21 | decoding the packed mirror of a plane recovers the plane |
| `Framebuffer.DecodeFrame` | firmware/host/fb2png.py:11-21 | the decoder's loops yield what the viewer sees, and refuse exactly the other sizes |
| `Thumbnail.FitBoxShrinks` | backend/cmd/backend/image_http.go:376-391 | no side is enlarged or exceeds the box or drops below one; the aspect ratio is kept to the rounding of the shorter side |
| `Thumbnail.ScaleOnto` | backend/cmd/backend/image_http.go:347-351 | the coordinate map hits every target coordinate |
| `Thumbnail.Accumulate` | backend/cmd/backend/image_http.go:345-360 | one pass leaves in every cell the sums and the count of exactly its source pixels |
| `Thumbnail.PixelShares` | backend/cmd/backend/image_http.go:352-359 | a pixel gives its own cell the upper byte of each channel, and counts one |
| `Thumbnail.NoEmptyCell` | backend/cmd/backend/image_http.go:361-365 | every target cell gets a source pixel |
| `Thumbnail.CountsSumToPixels` | backend/cmd/backend/image_http.go:345-360 | the counts sum to the number of source pixels |
| `Thumbnail.MeanIsByte` | backend/cmd/backend/image_http.go:366-369 | every mean fits the byte it is cut to |
| `Thumbnail.MeansStayPremultiplied` | backend/cmd/backend/image_http.go:352-369 | colour stays at most alpha |
| `Thumbnail.Downscale` | backend/cmd/backend/image_http.go:336-372 | every target byte is the floored mean of its channel over its cell; an empty source gives a blank image |
| `C2Invariants.ShapeKept` | firmware/main/cmd.c:292-393 | every step keeps which request the device awaits and what answers a request can have |
| `C2Invariants.FreshKept` | backend/internal/ingestcore/c2rekey.go:52-139 | every nonce and secret in use is older than the next one |
| `C2Invariants.HandshakeKept` | backend/internal/ingestcore/c2rekey.go:74-139 | a valid device session is the installed one, and no outstanding re-key request can replace it |
| `C2Invariants.CountersKept` | backend/internal/ingestcore/c2auth.go:37-83 | accepted counters rise within a secret, and an installed secret is never installed again |
| `C2Invariants.AheadKept` | firmware/main/cmd.c:336-355 | until its counter wraps, the device is ahead of everything sent and accepted under its secret |
| `C2Invariants.EnqueueKeepsQueue` | backend/internal/commandstore/commandstore.go:60-86 | a submission keeps at most one pending row for each serial and key |
| `C2Invariants.MarkKeepsQueue` | backend/internal/commandstore/commandstore.go:88-99 | an ack releases only that serial's rows up to it, never the fleet's |
| `C2Invariants.QueueKept` | backend/internal/commandstore/commandstore.go:43-99 | every step keeps both |
| `C2Delivery.CursorKept` | backend/internal/ingestcore/c2.go:29-168 | the backend's cursor never passes the stored ack; a command in the device's hands is past it |
| `C2Delivery.LowestKept` | backend/internal/ingestcore/c2.go:29-168 | if the commands that target this device become visible in seq order, the command in hand is the lowest one due |
| `C2Delivery.HistoryKept` | firmware/main/cmd.c:366-384 | if the seqs of the commands that target the device fit 32 bits, acks rise and end in the stored one, and an intent is actioned only after its ack |
| `C2Delivery.NoneSkippedKept` | backend/README.md:40-55 | under the same order, every command of the device up to its ack has been acked |
| `C2Channel.RunsInOrderKept` | firmware/main/cmd.c:356-384 | under the same order, the scripts run are the acked ones in order, with at most the command in hand after them |
| `C2Channel.InvOverRuns` | firmware/main/cmd.c:292-393 | all of these hold in every state of every run |
| `C2Channel.CommandsRunInOrderNoneSkipped` | backend/README.md:40-55 | over every run with crashes, lost messages, forged polls and re-keys, if the commands that target the device fit 32 bits and become visible in seq order: acks rise, exactly the commands up to the ack are acked, scripts run in that order with none skipped |
| `C2Deliverable.ServedIsLowest` | backend/internal/ingestcore/c2.go:86-91 | the serve query yields exactly the lowest row past the cursor whose serial is the device's or "*", and nothing exactly if there is none |
| `C2Deliverable.OnlyOwnCommands` | backend/internal/ingestcore/c2.go:86-91 | over every run, whatever is run or acked is a row of the device's own serial or "*"; under the same order exactly those up to its ack are acked |
| `C2Deliverable.SubmissionAdds` | backend/internal/commandstore/commandstore.go:60-86 | a submission adds its row exactly unless a row of that serial and key is pending, and keeps the order exactly if it is past all rows for the device |
| `C2Deliverable.FlagsOtherwise` | firmware/main/cmd.c:336-355 | no other step disturbs the order, and only a poll at the last 32-bit counter wraps it |
| `C2Deliverable.DeliverableIffAboveAck` | backend/internal/ingestcore/c2.go:52-127 | for a seq that fits 32 bits, in every reachable state, whatever else the queue holds: a command of the device not yet acked is acked in some continuation exactly if its seq is above the device's ack |
| `C2Deliverable.DeliverableIff` | backend/internal/ingestcore/c2.go:52-127 | the same for every seq: exactly if it is above the ack and in the device's hands or not blocked by a lower command beyond 32 bits |
| `C2Channel.IntentsActionedOnce` | firmware/main/main.c:439-444 | each seq's intent is actioned at most once, after its ack was stored |
| `C2Deliverable.AckedIntentActioned` | firmware/main/main.c:439-444 | once the ack is stored the next step actions the intent, unless power is lost first |
| `C2Channel.CursorBehindAck` | backend/internal/ingestcore/c2.go:50-75 | over every run, stale polls and polls made without the session secret included, the cursor never passes the ack that the device stored |
| `C2Invariants.ForgeryRefused` | backend/internal/ingestcore/c2.go:50-55 | a poll made without the session secret changes nothing, whatever ack and counter it claims |
| `C2Channel.CountersAcceptedOnce` | backend/internal/auth/session.go:3-38 | over every run, replays included, each (secret, counter) is accepted at most once, in rising order |
| `C2Channel.HonestPollAcceptedIffInWindow` | backend/internal/auth/session.go:15-38 | an honest outstanding poll is accepted exactly if its counter is within the window of the last accepted one |
| `C2Channel.RekeyedPollAccepted` | firmware/main/cmd.c:241-278 | without a session, challenge, re-key and poll end in an accepted poll whatever happened before |
| `C2Channel.FailedPollDropsSession` | firmware/main/cmd.c:385-389 | a failed poll drops the session |
| `C2Channel.ExpiredHoldKeepsSession` | backend/internal/ingestcore/c2.go:158-163 | a held poll that runs out of time leaves the device at rest with its session |
| `C2Channel.NonceIsSingleUse` | backend/internal/ingestcore/c2rekey.go:103-139 | once a nonce was used or has expired, no re-key request, sent or replayed, changes the session before the next challenge |
| `C2Channel.NeverLockedOut` | firmware/main/cmd.c:336-389 | from every reachable idle state at most ten steps lead to another accepted poll |
| `CommandStore.PendingUntilAcked` | backend/internal/commandstore/commandstore.go:93-99 | over every run of other statements a keyed row is released exactly by an ack of its own serial that reaches it |
| `CommandStore.ReenqueueReturnsSameSeq` | backend/internal/commandstore/commandstore.go:60-79 | until then it is the one pending row of its serial and key, and submitting it again inserts nothing |
| `CommandStore.ApplyOk` | backend/internal/commandstore/commandstore.go:60-99 | every statement keeps seqs unused before and the partial unique index |
| `CommandStore.Store.InsertRow` | backend/internal/commandstore/commandstore.go:64-70 | inserts at the next seq, exactly unless a row of that serial and key is not yet applied; a conflict still draws a seq |
| `CommandStore.Store.Lookup` | backend/internal/commandstore/commandstore.go:71-77 | finds the lowest pending duplicate, or reports that there is none |
| `CommandStore.Store.MarkRows` | backend/internal/commandstore/commandstore.go:93-99 | releases exactly that serial's keyed rows up to the ack |
| `CommandStore.Store.EnqueueCommand` | backend/internal/commandstore/commandstore.go:43-86 | the three refusals exactly; a fresh command gets the next seq; a duplicate gets the pending one's seq exactly unless an ack lands between the two statements |
| `CommandStore.AckInGapLosesReply` | backend/internal/commandstore/commandstore.go:64-79 | the ack that releases the only pending duplicate in the gap leaves the lookup without a row |
| `CommandStore.SubmitTwiceAckBetween` | backend/internal/commandstore/commandstore.go:43-79 | two calls, the second of which fails for that reason |
| `C2Channel.PendingIsUnique` | backend/internal/commandstore/commandstore.go:60-79 | an unacked keyed command is one row, and submitting it again changes nothing |
| `C2Channel.ReleasedOnlyWhenAcked` | backend/internal/commandstore/commandstore.go:88-99 | a row is released only after the device acked it, a fleet row never |
| `C2Deliverable.AckClosesIffNarrow` | firmware/main/cmd.c:370-380 | storing the ack closes the command exactly if its seq fits 32 bits |
| `C2Deliverable.WideCommandRunsTwice` | firmware/main/cmd.c:370-380 | a run in which a command whose seq does not fit is run and acked twice, and is due again |
| `C2Deliverable.LateCommandNeverRuns` | backend/internal/ingestcore/c2.go:131-168 | a command not acked when the device's ack has reached its seq is never acked, and never run from then on |
| `C2Deliverable.LaterRunsAboveAck` | firmware/main/cmd.c:356-384 | from every reachable state on, every script run and every ack is of a command above the ack of that state |
| `C2Deliverable.LateCommitIsSkipped` | backend/internal/ingestcore/c2.go:131-168 | a run in which that happens |
| `C2Device.Device.BerryC2` | firmware/main/cmd.c:119-137 | a script leaves the intent of its last call, with the sleep clamped |
| `C2Device.LastCallDecides` | firmware/main/cmd.c:90-100 | no call leaves nothing, a reboot or refresh leaves itself, and a sleep its seconds, kept between 0 and 86400 |
| `C2Device.Device.C2Poll` | firmware/main/cmd.c:292-393 | the branches of one poll on the device's own state: stores the ack of a script that ran before handing out its intent, drops the session on failure, polls with counter 1 after a re-key |
| `C2Runs.PollIsRun` | firmware/main/cmd.c:292-393 | from every system state at rest, every outcome that backend and radio can give one poll is a run of the step system that ends in the device state that the routine ends in, with the script run, the ack stored and the intent handed out that it says |
| `Session.AcceptedIff` | backend/internal/auth/session.go:15-38 | the exact acceptance condition before and after the first accepted counter, for any password function, and the reasons given |
| `Session.CountersStrictlyRise` | backend/internal/auth/session.go:15-38 | whatever is sent against one secret, accepted counters strictly rise and the stored one is the last |
| `Notifier.C2Notifier.Wait` | backend/internal/ingestcore/c2notify.go:28-32 | the channel handed out is open and is the one the next broadcast closes |
| `Notifier.C2Notifier.Broadcast` | backend/internal/ingestcore/c2notify.go:34-39 | closes exactly the current channel and installs a fresh one |
| `Notifier.AwakeKept` | backend/internal/ingestcore/c2notify.go:56-71 | every step keeps every waiter able to learn of a committed command |
| `Notifier.NoLostWakeup` | backend/internal/ingestcore/c2notify.go:17-71 | in every interleaving a waiter that missed a committed command has a closed channel or a notification still to come |
| `Notifier.SleeperFindsCommand` | backend/internal/ingestcore/c2.go:131-168 | once all notifications are delivered such a waiter can wake, and its next query finds a command |
| `Notifier.QueryFindsLowest` | backend/internal/ingestcore/c2.go:141-152 | a query finds exactly the lowest row past the applied one for that serial or "*", and the waiter sleeps exactly if there is none |
| `Notifier.QueryBeforeTakeLosesWakeup` | backend/internal/ingestcore/c2.go:131-168 | querying before taking the channel would lose one |
| `Rtc.ScanDivergesIffStuck` | firmware/main/rtc_core.h:22-35 | on any bytes the scan runs forever exactly if it comes to an offset that its 16-bit size sends back to itself |
| `Rtc.RoundRepeatsIffWraps` | firmware/main/rtc_core.h:22-35 | an offset is sent back to itself exactly if a complete entry of another key with size 65536 stands there |
| `Rtc.StuckAtWrap` | firmware/main/rtc_core.h:22-35 | a diverging scan ends up at such an entry |
| `Rtc.NoiseCanStall` | firmware/main/rtc_core.h:29 | such bytes exist for every key |
| `Rtc.ScanFindsIndex` | firmware/main/rtc_core.h:22-35 | on the bytes of distinct-key entries the scan finds the key's entry or reports it absent |
| `Rtc.Store.Find` | firmware/main/rtc_core.h:22-35 | the loop computes that scan on any bytes it does not stall on, and reads inside the buffer |
| `Rtc.Store.FindEntry` | firmware/main/rtc_core.h:22-35 | the same in terms of entries |
| `Rtc.Store.Compact` | firmware/main/rtc_core.h:49-52 | closing the gap leaves exactly the other entries, in order |
| `Rtc.Store.Append` | firmware/main/rtc_core.h:53-59 | the fresh entry's bytes land behind the others |
| `Rtc.Store.Set` | firmware/main/rtc_core.h:38-61 | succeeds exactly for keys of 1 to 32 bytes and values of at most 64 whose map then fits the buffer; a failure changes no byte |
| `Rtc.Store.Get` | firmware/main/rtc_core.h:63-77 | returns the value of the key's entry |
| `Rtc.Store.Has` | firmware/main/rtc_core.h:79-82 | membership |
| `Rtc.Store.Del` | firmware/main/rtc_core.h:84-95 | removes exactly that entry, or fails and changes no byte |
| `Rtc.StepRefinesMap` | firmware/main/rtc_core.h:38-95 | one operation on entries is the operation of a capacity-bounded map |
| `Rtc.RunRefinesMap` | firmware/main/rtc_core.h:38-95 | from empty, every sequence of operations gives the map's replies and contents |
| `Rtc.EncodedBytes` | firmware/main/rtc_core.h:38-61 | the used length is the map's size in bytes |
| `Sha1.Block` | firmware/main/auth_core.h:46-90 | the block function is the compression of section 6.1.2 of FIPS 180-4 |
| `Sha1.Schedule` | firmware/main/auth_core.h:48-54 | the eighty words are the message schedule |
| `Sha1.RoundInputs` | firmware/main/auth_core.h:62-76 | the selected function and constant are those of round i |
| `Sha1.RotlRotates` | firmware/main/auth_core.h:19-22 | the shifts are left rotations by 1, 5 and 30 |
| `Sha1.MajorityForms` | firmware/main/auth_core.h:70-72 | the or-form of the majority function equals the standard's xor-form |
| `Sha1.StoreBe64` | firmware/main/auth_core.h:38-44 | the eight bytes are the big-endian number |
| `Sha1.WordOfBytes` | firmware/main/auth_core.h:24-36 | words are read and written most significant byte first, and what is written is read back |
| `Sha1.Ctx.Init` | firmware/main/auth_core.h:92-101 | starts over with an empty message and the initial value of section 5.3.1 of FIPS 180-4 |
| `Sha1.Ctx.Absorb` | firmware/main/auth_core.h:106-117 | part of the data joins the tail; a full tail is hashed and emptied |
| `Sha1.Ctx.Update` | firmware/main/auth_core.h:103-118 | whatever the cut into calls, the context is that of the whole message, with fewer than 64 buffered bytes and the bit count modulo 2^64 |
| `Sha1.Ctx.Final` | firmware/main/auth_core.h:120-133 | the digest of section 5 and 6 of FIPS 180-4 of everything fed in; the pad read stays within 64 bytes |
| `Sha1.Sha1Of` | firmware/main/auth_core.h:135-141 | the one-call form gives the same digest |
| `Sha1.PaddingIsSmallest` | firmware/main/auth_core.h:120-133 | the padding is the smallest one that section 5.1.1 of FIPS 180-4 asks for |
| `Sha1.HashBlocksConcat` | firmware/main/auth_core.h:103-118 | hashing blocks in two parts is hashing them at once |
| `Hotp.KeyPads` | firmware/main/auth_core.h:157-162 | both pads are the zero-extended key xor their constant |
| `Hotp.AuthHmacSha1` | firmware/main/auth_core.h:143-175 | the context used twice computes section 2 of RFC 2104, keys over 64 bytes included |
| `Hotp.PowerOfTen` | firmware/main/auth_core.h:177-182 | the 32-bit loop computes the power without wrapping |
| `Hotp.Truncate` | firmware/main/auth_core.h:193-197 | shifts and ors form the 31-bit number of section 5.3 of RFC 4226, every index in range |
| `Hotp.LowNibble` | firmware/main/auth_core.h:193 | the offset is the last byte modulo 16 |
| `Hotp.TruncationExample` | backend/internal/auth/hotp.go:25-30 | the example of section 5.4 of RFC 4226 gives 0x50ef7f19 |
| `Hotp.AuthHotp` | firmware/main/auth_core.h:184-199 | for all keys, counters and digit counts the value of RFC 4226 |
| `Hotp.BackendHotp` | backend/internal/auth/hotp.go:15-39 | the same value as the firmware's |
| `Hotp.HotpInRange` | backend/internal/auth/hotp.go:15-39 | a code of d digits is below ten to the d |
| `SingleFlight.FlightsKept` | backend/internal/faascore/playlistframe.go:67-85 | every step keeps one registered leader a key |
| `SingleFlight.CarefulKept` | backend/internal/faascore/playlistframe.go:144-165 | every step keeps a working leader's row absent, unless a re-check of its variant was blind; without one no write finds the row there |
| `SingleFlight.FaithfulKept` | backend/internal/faascore/playlistframe.go:139-165 | every step keeps every successful outcome of a variant equal to the stored row, as long as that variant has no clash |
| `SingleFlight.ExactKept` | backend/internal/faascore/playlistframe.go:139-165 | every step keeps that a variant with a clash has a caller whose success is not the stored row |
| `SingleFlight.RunKeeps` | backend/internal/faascore/playlistframe.go:67-165 | all of these hold in every interleaving |
| `SingleFlight.HistoryOfEvents` | backend/internal/faascore/playlistframe.go:139-165 | rows, blind re-checks, writes over a row and clashes are recorded exactly if such an event happened |
| `SingleFlight.OneRenderAtATime` | backend/internal/faascore/playlistframe.go:67-85 | at most one render of a variant runs at a time |
| `SingleFlight.OneStoredRender` | backend/internal/faascore/playlistframe.go:139-165 | no two writes of a variant commit exactly if no committing write finds the row there, and one that does takes an earlier blind re-check of that variant |
| `SingleFlight.CallersReturnStoredBytes` | backend/internal/faascore/playlistframe.go:139-165 | in every interleaving all successes of a variant have the stored bytes exactly if no successful write of it found other bytes in its row, and that takes a blind re-check of that variant |
| `SingleFlight.ErrIffFailed` | backend/internal/faascore/playlistframe.go:139-165 | in every interleaving a caller of a variant meets an error exactly if a load, render or write of that variant failed |
| `SingleFlight.CallersAreServed` | backend/internal/faascore/playlistframe.go:139-165 | in every interleaving every answered caller of a variant has the stored bytes exactly if none of those failed and no successful write found other bytes in its row |
| `SingleFlight.HitReturnsRow` | backend/internal/faascore/playlistframe.go:140-142 | a caller whose read answers with the row returns its bytes at once |
| `SingleFlight.ClashReachesCaller` | backend/internal/faascore/playlistframe.go:139-165 | after a clash some caller goes on to return bytes that are not the stored ones |
| `SingleFlight.SameBytesNeverClash` | backend/internal/plrender/store.go:271-280 | renders that always give a variant the same bytes never clash, whatever reads and writes fail |
| `SingleFlight.StoredRowStays` | backend/internal/plrender/store.go:271-280 | a stored row is never replaced |
| `SingleFlight.FollowerGetsLeadersOutcome` | backend/internal/faascore/playlistframe.go:67-85 | a follower returns the leader's outcome for the same key |
| `SingleFlight.BlindRecheckReturnsOtherBytes` | backend/internal/faascore/playlistframe.go:144-162 | a run in which a failed re-check makes a caller return other bytes |
| `FrameCache.BuildKeepsTraced` | backend/internal/faascore/buildframe.go:172-210 | a request keeps every cached and last-good frame traceable to a successful render |
| `FrameCache.FanItemKeepsTraced` | backend/internal/faascore/buildframe.go:241-289 | so does one serial of a fan-out |
| `FrameCache.RunTraced` | backend/internal/faascore/buildframe.go:86-148 | so does every run |
| `FrameCache.OkFramesAreTraced` | backend/internal/faascore/buildframe.go:172-210 | a frame served as "ok" is a render of that function, version and (unless invariant) serial: the one just made, or one younger than the time to live plus the delay between two clock readings, or twice that in the invariant case |
| `FrameCache.AnswerOf` | backend/internal/faascore/buildframe.go:172-210 | after every run: a hit is served unless a render is forced, otherwise the new render, and if that fails the last frame delivered to the serial since the restart, else the last one stored for it, else the error frame |
| `FrameCache.CachesHoldLast` | backend/internal/faascore/buildframe.go:124-148 | the hot frame of a pair is the last one delivered to it since the restart, its last-good frame the last one stored |
| `FrameCache.FanItemDelivers` | backend/internal/faascore/buildframe.go:260-286 | one serial of a fan-out is delivered the live shared frame or else a new render exactly if its write works, and nothing else changes |
| `FrameCache.NoErrorAfterOk` | backend/internal/faascore/buildframe.go:202-210 | once a request was answered "ok", no request of that serial and function gets the error frame before the next restart |
| `FrameCache.StaleFramesAreTraced` | backend/internal/faascore/buildframe.go:202-208 | a stale frame is a successful render of that function, for that serial or of a serial-invariant version |
| `FrameCache.RenderIsServedAgain` | backend/internal/faascore/buildframe.go:174-177 | a frame rendered for a request is what the next one of that serial and version is served, without a render, until its time to live has passed |
| `FrameCache.RenderIsShared` | backend/internal/faascore/buildframe.go:184-191 | a render of a serial-invariant version is served to every serial without a fresh frame of its own |
| `FrameCache.FailedRenderChangesNothing` | backend/internal/faascore/buildframe.go:202-210 | a failed render changes no hot, shared or last-good frame |
| `FrameCache.SeedingRestartsClock` | backend/internal/faascore/buildframe.go:185-187 | for every age from the time to live plus delay up to twice that, a run that serves a frame of that age as "ok" |
| `FrameCache.FreshIffNotInvariant` | backend/internal/faascore/buildframe.go:172-191 | in all runs every "ok" frame is younger than the time to live plus delay exactly if the version is not serial-invariant |
| `FrameCache.Supervisor.BuildFrame` | backend/internal/faascore/buildframe.go:172-210 | the code takes the branches of the model on its own maps |
| `FrameCache.Supervisor.FanOut` | backend/internal/faascore/buildframe.go:241-289 | counts delivered and failed serials exactly; within one time to live an invariant function is successfully rendered at most once (failed renders are not bounded) |
| `RateLimit.RateLimiter.constructor` | backend/internal/adminhttp/ratelimit.go:58-76 | non-positive settings fall back; rate times window is the burst |
| `RateLimit.RateLimiter.BucketLocked` | backend/internal/adminhttp/ratelimit.go:80-103 | the bucket is refilled up to the burst, or new and full; map and list keep the same keys |
| `RateLimit.RateLimiter.Trim` | backend/internal/adminhttp/ratelimit.go:92-101 | eviction cuts the list to the cap and keeps exactly the buckets of the keys left |
| `RateLimit.RateLimiter.DoAllow` | backend/internal/adminhttp/ratelimit.go:107-116 | grants exactly if a whole token is there, and takes it; a refusal takes nothing |
| `RateLimit.RateLimiter.DoPeek` | backend/internal/adminhttp/ratelimit.go:120-124 | reports the same and takes nothing |
| `RateLimit.RateLimiter.DoConsume` | backend/internal/adminhttp/ratelimit.go:127-134 | the bucket then holds one token less, or nothing if it held less than one |
| `RateLimit.RateLimiter.DoRetryAfter` | backend/internal/adminhttp/ratelimit.go:137-156 | the least positive number of seconds after which allow would succeed |
| `RateLimit.RateLimiter.Len` | backend/internal/adminhttp/ratelimit.go:159-163 | the number of resident keys is within the cap |
| `RateLimit.AfterOk` | backend/internal/adminhttp/ratelimit.go:80-134 | every operation keeps tokens in [0, burst] and the cap |
| `RateLimit.RefilledIs` | backend/internal/adminhttp/ratelimit.go:80-91 | a bucket holds its tokens plus rate times the time since, up to the burst; a new one is full |
| `RateLimit.Charged` | backend/internal/adminhttp/ratelimit.go:107-134 | what each of the four operations leaves of that |
| `RateLimit.KeptLessCharges` | backend/internal/adminhttp/ratelimit.go:80-134 | over any run a key keeps what it held and earned, up to the burst, less one for each granted allow and each consume: nothing else takes from it |
| `RateLimit.WholeTokenIsThere` | backend/internal/adminhttp/ratelimit.go:107-134 | without charges since, allow is granted and consume finds a whole token once one was held or earned, whatever happened to other keys |
| `RateLimit.PeekAfterConsumes` | backend/internal/adminhttp/ratelimit.go:120-134 | after n consumes at one time, peek is true exactly if n + 1 is at most the tokens held at the start |
| `RateLimit.GatedAttemptsAreLimited` | backend/internal/adminhttp/ratelimit.go:244-258 | failed attempts that each passed the gate are at most burst + rate * (t1 - t0), for a new key that stays resident |
| `RateLimit.TakenBounded` | backend/internal/adminhttp/ratelimit.go:80-134 | over any run, the whole tokens that allow and consume take from a key are at most its credit, plus rate times time, plus one burst for each eviction |
| `RateLimit.ResidentKeyIsRateLimited` | backend/internal/adminhttp/ratelimit.go:80-116 | from a resident key at most burst + rate * (t1 - t0) tokens are taken |
| `RateLimit.ResidentIffSpaced` | backend/internal/adminhttp/ratelimit.go:80-103 | a new key is never evicted up to its last use exactly if fewer than `max` other keys come between any two operations on it |
| `RateLimit.SpacedKeyIsRateLimited` | backend/internal/adminhttp/ratelimit.go:80-116 | from such a key at most burst + rate * (t1 - t0) tokens are taken |
| `RateLimit.EvictionRefills` | backend/internal/adminhttp/ratelimit.go:92-101 | two keys on one slot are granted every time |
| `Lru.UseTracksRecency` | backend/internal/adminhttp/ratelimit.go:80-103 | a list capped after every use is the most recent part of the whole use history: what was evicted was least recently used |
| `Lru.UseKeeps` | backend/internal/adminhttp/ratelimit.go:87-101 | using another key puts exactly that key in front of a key that stays, and the key stays if fewer than the cap are then in front of it |
| `BasicCache.Cache.constructor` | backend/internal/adminhttp/basicauth.go:93-98 | starts empty with a cap of at least one |
| `BasicCache.Cache.Get` | backend/internal/adminhttp/basicauth.go:136-157 | a hit is exactly a live entry, from the last verification of that credential; an expired one is removed |
| `BasicCache.Cache.Put` | backend/internal/adminhttp/basicauth.go:160-181 | stores or refreshes and moves to the front; over the cap the entry last used longest ago goes |
| `BasicCache.Cache.RemoveLocked` | backend/internal/adminhttp/basicauth.go:183-192 | removes the key from map and list, keeping the order |
| `BasicCache.Cache.EvictOver` | backend/internal/adminhttp/basicauth.go:176-180 | cuts the list to the cap from the back |
| `BasicCache.Cache.CutIsOldest` | backend/internal/adminhttp/basicauth.go:176-180 | every key cut was last used before every key kept |
| `FlashStore.StoreKeyOk` | firmware/main/store_core.h:26-39 | exactly the keys of 1 to 64 permitted characters that do not begin with a dot |
| `FlashStore.ValidKeys` | firmware/main/store_core.h:26-39 | the permitted characters are the letters, digits, dot, underscore and dash; no valid key contains a slash |
| `FlashStore.PathsAreDisjoint` | firmware/main/store_core.h:20-48 | no valid key reaches the staging directory or another key's file, or overflows the path buffer |
| `FlashStore.StorePath` | firmware/main/store_core.h:43-48 | builds the path and refuses one that does not fit |
| `FlashStore.Fs.WriteAll` | firmware/main/store_core.h:60-66 | short writes are continued until the whole value is in the staging file |
| `FlashStore.Fs.Stage` | firmware/main/store_core.h:57-68 | success leaves the whole value synced; on any failure only staging files differ |
| `FlashStore.Fs.StoreKvSet` | firmware/main/store_core.h:51-71 | whichever call fails, every state passed through shows the key's old or new value and every other key unchanged; the result tells which, and is failure exactly for an invalid key, a value over 16384 bytes or a failed call |
| `FlashStore.Fs.StoreKvDel` | firmware/main/store_core.h:114-120 | the same for a delete, which fails exactly for an invalid key or a refused unlink |
| `FlashStore.Fs.GcTmp` | firmware/main/store.c:39-58 | the sweep changes no value and empties the staging directory but for files that cannot be unlinked |
| `FlashStore.Fs.StoreKvSize` | firmware/main/store_core.h:74-83 | the length of the key's value, or -1 |
| `FlashStore.Fs.StoreKvRead` | firmware/main/store_core.h:85-107 | succeeds exactly if the key has a value, no read of the loop failed, and the value fits or the probe failed; it yields the whole value, or in the last case its prefix |
| `FlashStore.PrefixIffProbeFails` | firmware/main/store_core.h:100-106 | other bytes are passed off as the value exactly if the probe fails on a longer value, as for two bytes read into one |
| `FlashStore.Fs.StoreGet` | firmware/main/store.c:178-191 | returns the key's whole value exactly if it has one of permitted size and no read of the loop fails, else nothing |
| `FlashStore.Fs.AcrossPowerLoss` | firmware/main/store_core.h:51-120 | a set or delete, power loss at any step with any outcome, remount, sweep and read: the touched key has exactly its old or new value, every other key its old one, the sweep of a listed directory leaves only what it was refused to unlink, and the read returns the whole value exactly unless one of its reads fails |
| `FlashStore.RenameSetsKey` | firmware/main/store_core.h:69 | renaming a synced staging file sets that key and no other |
| `FlashStore.UnlinkRemovesKey` | firmware/main/store_core.h:114-120 | unlinking removes that key and no other |
| `FlashStore.PowerLossLeavesOldOrNew` | firmware/main/store_core.h:51-71 | after power loss in any state passed through, the touched key has its old or new value and the others theirs |
| `FlashStore.RemountKeepsValues` | firmware/main/store.c:39-58 | the sweep after the remount keeps that |
| `FlashStore.RenameWithoutSyncIsUnsafe` | firmware/main/store_core.h:67-69 | without the fsync before the rename, power loss could leave anything |
| `Framing.LengthRoundTrip` | backend/worker/frame.ts:21-31 | reading a written length gives it back |
| `Framing.BytesOfLength` | backend/worker/frame.ts:21-31 | writing a length that was read gives its bytes back |
| `Framing.HighestByteFirst` | backend/worker/frame.ts:21-31 | the first length byte is the highest |
| `Framing.EncodeFrame` | backend/worker/frame.ts:35-43 | refuses exactly the frames over 376389 bytes, else length, kind and payload |
| `Framing.WriteFrame` | backend/internal/faasproto/frame.go:59-70 | the same for 16793605 bytes |
| `Framing.FrameReader.Feed` | backend/worker/frame.ts:53-74 | yields every complete frame of buffer and chunk, keeps the rest, throws exactly on an unacceptable length |
| `Framing.ParseExtends` | backend/worker/frame.ts:53-74 | parsing more bytes later is parsing them behind the kept rest |
| `Framing.ChunkingIsIrrelevant` | backend/worker/frame.ts:53-74 | for every chunking of a stream, a feed throws exactly if the stream holds an unacceptable length; if not, the outputs are those of one feed of it all, else the frames complete before the chunk that brings that length |
| `Framing.ParseKeepsBytes` | backend/worker/frame.ts:53-74 | frames yielded, written again, followed by the buffer are the bytes fed |
| `Framing.WrittenFramesAreRead` | backend/worker/frame.ts:35-74 | the frames written are the frames read, whatever incomplete tail follows |
| `Framing.ReadFrame` | backend/internal/faasproto/frame.go:75-92 | the frame and the rest of the stream, or exactly the two errors |
| `Framing.EncodeResponse` | backend/internal/faasproto/msg.go:91-110 | refuses exactly a wrong image size or an overlong metadata, else lays out the payload |
| `Framing.DecodedImageIsExact` | backend/internal/faasproto/msg.go:115-136 | a decoded response carries one whole image, or none if it failed |
| `Framing.ResponseRoundTrip` | backend/worker/frame.ts:96-111 | every response accepted by the encoder fits the reader's ceiling, has its length read back, and decodes to the same metadata and image |
| `Framing.WireInjective` | backend/worker/frame.ts:35-43 | the start of a byte string determines the frame written there |
| `Framing.SendResponse` | backend/internal/faasproto/frame.go:75-92 | encoded, framed, read from a stream that goes on and decoded, every response the encoder accepts arrives as it was sent, and the rest is what follows |
| `Daemon.Socket.Flush` | backend/worker/daemon.ts:58-62 | what the kernel did not take becomes the pending bytes |
| `Daemon.Socket.Send` | backend/worker/daemon.ts:63-73 | written bytes followed by pending ones are always the concatenation of all sends |
| `Daemon.Socket.Drain` | backend/worker/daemon.ts:103-106 | draining keeps that and loses nothing |
| `Daemon.Semaphore.Acquire` | backend/worker/daemon.ts:34-40 | a slot is taken exactly if one is free, else the caller queues last |
| `Daemon.Semaphore.Release` | backend/worker/daemon.ts:41-45 | the slot goes to the longest waiter, or becomes free; never more than the maximum are held |
| `LowBattery.HysteresisGap` | firmware/main/lowbatt.c:41-52 | clear is at least arm; it is at least arm + 100 for every stored value exactly if arm is at most 4150 |
| `LowBattery.LoadedConfig` | firmware/main/lowbatt.c:17-52 | every threshold is the stored value or its default, kept in its range |
| `LowBattery.StreakCountsLows` | firmware/main/lowbatt_core.h:50-101 | the streak is the number of low readings since the last reset or unlock |
| `LowBattery.ArmsIffStreakComplete` | firmware/main/lowbatt_core.h:50-101 | the gate arms exactly when a streak of low readings completes with no healthy reading, USB host or button wake between |
| `LowBattery.StaysLowIffStillLocked` | firmware/main/lowbatt_core.h:50-101 | the device goes back to sleep exactly when a measured wake finds the gate locked and leaves it locked |
| `LowBattery.BaselineIsMaximum` | firmware/main/lowbatt_core.h:50-101 | while locked the baseline is the highest reading since arming and all are below clear |
| `LowBattery.UnlocksIffRecovered` | firmware/main/lowbatt_core.h:50-101 | a lock ends exactly on USB, button, clear voltage, or a rise over every reading since arming |
| `LowBattery.Device.LowbattGate` | firmware/main/lowbatt.c:88-96 | the state carried in RTC memory is that of the whole run of wakes |

## Left out

- float32 rounding at backend/internal/bwry/dither.go:151-153: the dither is exact real arithmetic.
- `ParseDither`, `FromRGB`, the disc, triangle, text and QR drawing calls, and RTC and flash listing: easy members or foreign data.
- Framebuffer.Screen.Circle: coordinates are unbounded integers; C overflow for radii near 2^31 is not modelled.
- Thumbnail.Downscale: sums are unbounded; the source's 64-bit sums cannot overflow within its pixel-count cap.
- Thumbnail.FitBoxShrinks: for sources of at least one pixel, as the handler admits; the box is a positive constant.
- C2Channel.CommandsRunInOrderNoneSkipped: for commands that target the device with seqs of at most 2^32-1 visible in seq order; `C2Deliverable.DeliverableIff` settles the other cases.
- C2Channel.CursorBehindAck: a one-time password covers the counter, not the ack; a password captured unused and sent with another ack is not among the actions (the channel is HTTPS).
- C2Channel.HonestPollAcceptedIffInWindow: until the device's 32-bit counter wraps; `NeverLockedOut` covers the rest.
- C2Channel.InvOverRuns: passwords of different (secret, counter) pairs differ, NVS writes succeed, one device is followed and the acks of others are arbitrary, and a served command carries its seq header.
- C2Runs.PollIsRun: nothing else happens between the steps of the poll, so a held long poll is covered by the step system only.
- C2Device.Device.C2Poll: HTTP, JSON, ECDSA, base64 and the Berry interpreter are parameters; a script is its list of intent calls.
- CommandStore.Store.EnqueueCommand: each statement is atomic, database failures and the operator stamp are not modelled, and a device is not unregistered in the middle of a call.
- C2Device.Device.BerryC2: a served script is non-empty and fits the device's buffer, as the enqueue cap in octets ensures.
- FlashStore.Fs.GcTmp: the directory listing is one snapshot; creating the staging directory is not modelled.
- Notifier.NoLostWakeup: while the LISTEN connection is up; reconnect gaps and the periodic fallback poll are not modelled.
- SingleFlight.RunKeeps: cache eviction and panics in a leader are not modelled; a database call is one atomic step.
- FrameCache.Supervisor.BuildFrame: requests do not interleave with one another; a positive time to live; frozen serving, wake times and the stale fallbacks' labels beyond ok, stale and error are not modelled.
- RateLimit.TakenBounded: exact real time and tokens instead of float64 and nanoseconds; a clock that does not go back.
- RateLimit.GatedAttemptsAreLimited: requests of one key do not overlap; overlapping ones may each pass the gate before any is charged.
- FrameCache.AnswerOf: the bytes of the embedded error frame are not given.
- BasicCache.Cache.Get: SHA-256 digests are opaque keys.
- FlashStore.Fs.StoreGet: the buffer is always allocated.
- FlashStore.Fs.StoreKvSet: littlefs is taken to commit a rename or unlink atomically and to lose only files that were not synced.
- Hotp.BackendHotp: Go's own hmac and sha1 packages are taken to be the functions of RFC 2104 and FIPS 180-4.
- Framing.ResponseRoundTrip: the JSON form of the metadata is a marshal and unmarshal pair that inverts.
- Framing.FrameReader.Feed: the buffer is a sequence; copying between typed arrays is not modelled.
- Daemon.Socket.Flush: a write takes between nothing and everything; a closed socket is not modelled.
- HTTP routing, SQL, the SSE hub, WiFi, display, ADC and OTA code: foreign calls or plumbing.
