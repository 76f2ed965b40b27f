# Proofs about the TWIRX core

This project models the parts of the repository whose correctness is decided by
code rather than by configuration, and proves what they are for: canonical
documents whose identity is the hash of their bytes, artifact segments, the
request limiter, sealed retrieval and archive import with manifest-last
publication, three hand-written scanners, the atlas planner and its metrics, and
the compatibility report between versions of an ontology module.

`dafny verify dfyconfig.toml` checks everything.

## How the model is laid out

Code that changes things step by step is modelled by classes and methods with
loops (`Cbor.Encoder`, `Cbor.Decoder`, `Segments.Build`,
`Limiter.TokenLimiter`, `Egress.Worker`, `ArchiveSpool.Output`,
`JsonBounded.Validator`, `Metrics.CapabilityCounts`, `OntologyDiff.Report` and
the scanners). Each is proved against a specification function, and the
properties that span several operations or whole runs are lemmas about those
functions. Byte strings are sequences of numbers below 256; Go strings are byte
strings, with UTF-8 well-formedness checked where the code checks it.

| module | what it models |
|---|---|
| `ByteStrings` | order of byte strings, big-endian numbers, UTF-8, splitting |
| `Cbor` | the deterministic subset of RFC 8949 (heads of section 3 in the shortest form of section 4.2.1) as a growing buffer and an advancing offset |
| `Lexical`, `Durations` | text, identifier, time and duration checks |
| `Documents` | optional, typed-value and set codecs |
| `Packets`, `Frames` | the packet and frame documents, their validation and codecs |
| `Segments` | the artifact segment: one byte array with index and bodies |
| `Limiter` | the token-bucket limiter with its bounded table |
| `Spools`, `Observations` | digests in text form, bounded reads, the observation envelope |
| `Egress`, `EgressRuns` | one attempt of the egress worker; runs of attempts with crashes and restarts |
| `ArchiveOrders`, `ArchiveIndex`, `ArchiveSpool` | archive work orders, index responses, two-phase publication and replay |
| `JsonBounded` | the bounded JSON profile: token validator and escape scan |
| `Titles` | the title extraction of the archive profile |
| `Pointers`, `EnginePointers` | the JSON Pointer resolvers (RFC 6901) of the adapter and of the engine, each in its own code, and how they compare |
| `AtlasState`, `Metrics`, `Frontier`, `Sorting` | the registry, its metrics and the dry-run frontier plan |
| `OntologyDiff` | the difference report |
| `Laws`, `EgressCases`, `ArchiveCases`, `BreakerCases` | formats that meet the laws asked of them, and attempts, publications and an outage under them, on either side of each condition |

Some modules say what the checks and encodings of another one mean, in terms of
their own:

| module | what it pins down |
|---|---|
| `Unicode`, `Numbers`, `PathNames` | UTF-8 as the encoding of code points, the order of byte strings, number texts as numerals, safe paths by the names in them |
| `Instants` | time texts as moments of the calendar, and their order as that of instants, so what the interval of a packet or frame is |
| `CborForms`, `SegmentLayout` | heads and segments byte by byte, with the integers of appendix A of RFC 8949 |
| `PacketVectors`, `FrameVectors` | documents of the repository's conformance corpus |
| `PacketMeaning`, `FrameMeaning` | the trust lanes, and what every accepted packet and frame says |
| `LimiterExact` | when a request is granted, by the grants of all windows |
| `EgressBreaker` | when a retrieval starts, by the openings of the breaker |
| `EgressSoundness`, `ArchiveSoundness` | what a directory guarantees once it verifies, whoever wrote to it |
| `ArchiveMeaning` | which line an index response resolves to |
| `TitleTags` | the tags of a page that are visible, and which of them delimit its title |
| `JsonUnicode`, `PointerExamples` | escapes as UTF-16 text, and pointers of section 5 of RFC 6901 |
| `FrontierMeaning`, `MetricsMeaning`, `DiffMeaning` | which jobs a plan holds, what a counter counts, what a change does to the values a role admits |

The validation predicates are what the theorems about valid values rest on:
`Packets.ValidPacket` follows `internal/dataplane/packet.go:104-285`,
`Frames.ValidFrame` and `ValidSlot` follow `internal/dataplane/ontology.go:71-223`,
`Documents.ValidTypedValue` follows `internal/dataplane/common.go:168-217`,
`Egress.ValidOrder` and `ValidControl` follow
`internal/egressworker/worker.go:162-236`, `AtlasState.ValidScheduler` and
`ValidRecord` follow `internal/atlas/frontier.go:50-101` and
`internal/atlas/state.go:371-466`.

## What is a parameter

SHA-256 is an arbitrary function from byte strings to 32-byte digests; the theorems
that need freedom from collisions say so (`EgressRuns.DigestRetrievedOnce`,
`EgressSoundness.ManifestDecides`, and the two theorems that a changed artifact no
longer verifies). JSON, gzip, WARC, HTTP, URL,
MIME and time syntaxes are parameters, gathered in a `Formats`, `Syntax` or
`Index` value. Where a theorem needs a law of such a parameter the law is part
of its `Lawful` predicate: decoding undoes encoding on UTF-8 text; JSON replaces
text that is not UTF-8; a formatted time never reads as another time; a parsed
archive record has the body its digest names. `Laws` builds formats that meet
these laws for any hash, and `EgressCases` and `ArchiveCases` give, under such
formats, a loaded order with an attempt that completes and a capture whose
publication succeeds.

The disk of the egress worker is a map of spool directories and circuit files,
directory creation is exclusive, and a file write is one step. A worker logs its
steps, so the disks that a crash can leave are those after the prefixes of the
log. What the network and a failing disk do is an argument of each attempt.

`Egress.Worker.Execute` takes any order value with any private bytes, as the
code does: before an attempt it rehashes the bytes but does not decode them
again, so the order value may have been altered since it was loaded. Three theorems
speak of order values that are what their bytes decode to: `Egress.VerifyAgrees`
and `Egress.RunVerifies`, since verification decodes the spooled bytes, and
`EgressRuns.DigestRetrievedOnce`, since an altered ID under the same bytes names
another spool. The theorems about disks, runs and circuits hold of altered values
too.

## Properties that hold only under a condition

Five properties that one might expect of every input hold only on some. In each
case the code is modelled as it is and the condition is proved.

* The limiter keeps one key within burst plus rate times window exactly when
  ten minutes of the rate refill the burst, because eviction forgets spent
  tokens after ten minutes (`Limiter.WindowBoundExact`). The per-origin limiter
  always meets this; the per-client one depends on its configuration.
* A published egress spool verifies exactly when the fetch kept to its order
  (`Egress.VerifyAgrees`, and for whole runs `Egress.RunVerifies`). Publication itself does not compare the fetched URL,
  redirect count, body size and media-type length with what verification
  demands. An empty body and a media type of 256 bytes are published and do not
  verify (`EgressCases.EmptyBodyFails`, `EgressCases.LongMediaTypeFails`);
  `EgressCases.KeptFetchVerifies` stands on the other side.
* A published archive capture verifies exactly when the two header texts of its
  parsed record are UTF-8 (`ArchiveSpool.PublishVerifies`). The evidence check
  bounds their length but not their encoding, and JSON replaces what is not
  UTF-8. A Content-Language that is the byte 0xff is published and does not
  verify (`ArchiveCases.BadLanguageFails`); `ArchiveCases.NoHeadersVerify` stands
  on the other side.
* The title extraction uses offsets of the lower-cased body in the original
  body. Where lower-casing keeps byte positions it is exact
  (`Titles.TitleCollapses`). Behind a front of unchanged width a title is
  extracted exactly when lower-casing keeps its width (`Titles.TitleExact`,
  `Titles.PageExact`), and all titles of unchanged width are extracted exactly
  when the front keeps its width (`Titles.FrontExact`). If the Kelvin sign
  lower-cases to `k`, the page with that title and the page with that sign before
  its head are the failing inputs (`Titles.KelvinTitleIsCut`,
  `Titles.KelvinShiftsTitle`).
* The circuit breaker lets an origin go when the cooldown since its last opening
  is over (`EgressBreaker.BreakerExact`, with `BreakerCases.HeldForTheCooldown` for
  both outcomes), but not always: a circuit file that is unreadable, or that counts
  more than a hundred thousand failures, holds its origin back for good.


## Model

| member | source | states |
|---|---|---|
| Cbor.HeadRoundTrip | internal/cborlite/cborlite.go:44-208 | every major type and 64-bit value, written as the shortest head, reads back as itself and leaves exactly what follows it |
| Cbor.ReadHead | internal/cborlite/cborlite.go:154-208 | any head that is read is the shortest head of the value it yields: longer forms, indefinite lengths and reserved forms never read |
| CborForms.HeadForms | internal/cborlite/cborlite.go:44-72 | every head byte by byte: the major type in the top three bits, then the value or the width of the value, most significant byte first, in the shortest form |
| Cbor.ReadArgument | internal/cborlite/cborlite.go:154-208 | argument bytes of any width read only as a value for which that width is the shortest |
| Cbor.ArrayRoundTrip | internal/cborlite/cborlite.go:30 | array heads read back, whatever follows |
| Cbor.UintRoundTrip | internal/cborlite/cborlite.go:88-111 | unsigned integers read back, and none starts like the null marker |
| Cbor.TextRoundTrip | internal/cborlite/cborlite.go:113-132 | UTF-8 text within the reader's limit reads back with nothing lost of what follows, and is never taken for a null |
| Cbor.BytestringRoundTrip | internal/cborlite/cborlite.go:134-152 | byte strings within the limit read back and are never taken for a null |
| Cbor.ReadArray | internal/cborlite/cborlite.go:77-86 | bytes accepted as an array head are the encoder's own bytes for that count |
| Cbor.ReadUint | internal/cborlite/cborlite.go:88-97 | bytes accepted as an unsigned integer are the encoder's own bytes for it |
| Cbor.ReadNil | internal/cborlite/cborlite.go:102-111 | one byte is consumed exactly on the null marker, otherwise none |
| Cbor.ReadText | internal/cborlite/cborlite.go:113-132 | accepted text is UTF-8, within the limit, and its bytes are the encoder's own |
| Cbor.ReadBytestring | internal/cborlite/cborlite.go:134-152 | an accepted byte string is within the limit and its bytes are the encoder's own |
| Cbor.Encoder.AppendHead | internal/cborlite/cborlite.go:44-72 | the growing buffer gains exactly the shortest head |
| Cbor.Encoder.Array | internal/cborlite/cborlite.go:30 | the buffer gains exactly one array head |
| Cbor.Encoder.Uint | internal/cborlite/cborlite.go:31 | the buffer gains exactly one unsigned integer |
| Cbor.Encoder.Nil | internal/cborlite/cborlite.go:32 | the buffer gains exactly the null marker |
| Cbor.Encoder.Text | internal/cborlite/cborlite.go:34-37 | the buffer gains a text head and the text |
| Cbor.Encoder.Bytestring | internal/cborlite/cborlite.go:39-42 | the buffer gains a byte-string head and the bytes |
| Cbor.Encoder.Bytes | internal/cborlite/cborlite.go:24-28 | the bytes handed out are those appended so far |
| Cbor.Decoder.Remaining | internal/cborlite/cborlite.go:75 | the length of what has not been read |
| Cbor.Decoder.Head | internal/cborlite/cborlite.go:154-208 | the advancing offset agrees with the canonical reader on result, error and rest |
| Cbor.Decoder.Array | internal/cborlite/cborlite.go:77-86 | agrees with the canonical array reader on result, error and rest |
| Cbor.Decoder.Uint | internal/cborlite/cborlite.go:88-97 | agrees with the canonical integer reader on result, error and rest |
| Cbor.Decoder.TryNil | internal/cborlite/cborlite.go:102-111 | agrees with the canonical null reader; the offset stays where it is unless a null was read |
| Cbor.Decoder.Text | internal/cborlite/cborlite.go:113-132 | agrees with the canonical text reader on result, error and rest |
| Cbor.Decoder.Bytestring | internal/cborlite/cborlite.go:134-152 | agrees with the canonical byte-string reader on result, error and rest |
| Cbor.Decoder.Take | internal/cborlite/cborlite.go:210-217 | takes exactly n bytes when there are that many, and otherwise fails without moving |
| Durations.DurationLanguage | internal/dataplane/common.go:235-285 | the backtracking scan accepts exactly the written forms of durations with at least one component, no empty clock part, units in order and a fraction on seconds only |
| Durations.ValidDuration | internal/dataplane/common.go:235-285 | the loop that moves its index by components decides exactly that language |
| Durations.ReadComponent | internal/dataplane/common.go:258-278 | one component: the index advances exactly when the component is there, and stays where it was on a different unit |
| Lexical.UTCSecondFits | internal/dataplane/common.go:85-94 | an accepted time text is exactly twenty ASCII bytes, so the decoder's limit never cuts one |
| Unicode.TextsExactly | internal/dataplane/common.go:65-70 | a byte string passes the UTF-8 check exactly when it is the RFC 3629 encoding of some code points, none of them half of a surrogate pair |
| Unicode.OrderExactly | internal/dataplane/common.go:131-134 | the order of byte strings: a proper prefix comes first, otherwise the smaller byte where the two first differ |
| Numbers.IntegersExactly | internal/dataplane/common.go:32 | the integer texts are exactly the numerals, with or without a minus sign |
| Numbers.DecimalsExactly | internal/dataplane/common.go:33 | the decimal texts are exactly a numeral, with or without a minus sign, a point, and at least one digit |
| Instants.TextOrderIsTimeOrder | internal/dataplane/common.go:85-94 | the byte order of accepted time texts is the order of the seconds they stand for, and equal texts are equal instants |
| Instants.TimesAreMoments | internal/dataplane/common.go:85-94 | the accepted time texts are exactly the moments of the calendar up to the year 9999, as they are written |
| Instants.YearsAreGregorian | internal/dataplane/common.go:85-94 | the days counted before a year are those of the Gregorian rule of four, a hundred and four hundred years |
| Documents.OptionalDigestRoundTrip | internal/dataplane/common.go:299-317 | present and absent digests read back; a null is read as absence and no digest is |
| Documents.OptionalTextRoundTrip | internal/dataplane/common.go:319-337 | present and absent texts within the limit read back, an empty present text included |
| Documents.TypedValueRoundTrip | internal/dataplane/common.go:339-366 | every valid typed value reads back and never looks like a null |
| Documents.ReadTypedValue | internal/dataplane/common.go:347-366 | accepted typed-value bytes are the encoder's own, and the value is valid |
| Documents.TextSetRoundTrip | internal/dataplane/common.go:368-392 | every sorted, bounded text set reads back |
| Documents.DigestSetRoundTrip | internal/dataplane/common.go:394-418 | every sorted, bounded digest set reads back |
| Documents.ReadTextSet | internal/dataplane/common.go:375-392 | accepted text-set bytes are the encoder's own |
| Documents.ReadDigestSet | internal/dataplane/common.go:401-418 | accepted digest-set bytes are the encoder's own |
| Documents.ItemsRoundTrip | internal/dataplane/common.go:368-392 | a counted list reads back whenever each item does, whatever follows it |
| Documents.ItemsCanonical | internal/dataplane/common.go:375-392 | a counted list is canonical whenever each item is |
| Documents.ReadItemsStep | internal/dataplane/common.go:381-388 | one turn of a counting decode loop, for any item reader: what was read so far, then the rest of the list |
| Documents.EncodeDigest | internal/dataplane/common.go:287 | appends exactly one digest |
| Documents.EncodeOptionalDigest | internal/dataplane/common.go:299-305 | appends a null or the digest |
| Documents.EncodeOptionalText | internal/dataplane/common.go:319-325 | appends a null or the text |
| Documents.EncodeTypedValue | internal/dataplane/common.go:339-345 | appends the four parts of a typed value |
| Documents.EncodeTexts | internal/dataplane/common.go:368-373 | the loop appends the count and every text in order |
| Documents.EncodeDigestSet | internal/dataplane/common.go:394-399 | the loop appends the count and every digest in order |
| Documents.DecodeDigest | internal/dataplane/common.go:289-297 | agrees with the canonical digest reader |
| Documents.DecodeOptionalDigest | internal/dataplane/common.go:307-317 | agrees with the canonical optional-digest reader |
| Documents.DecodeOptionalText | internal/dataplane/common.go:327-337 | agrees with the canonical optional-text reader |
| Documents.DecodeTypedValue | internal/dataplane/common.go:347-366 | agrees with the canonical typed-value reader |
| Documents.DecodeTextSet | internal/dataplane/common.go:375-392 | the counted loop agrees with the canonical set reader, its count bounds and its order check included |
| Documents.DecodeDigestSet | internal/dataplane/common.go:401-418 | the counted loop agrees with the canonical digest-set reader |
| Packets.PacketBijection | internal/dataplane/packet.go:305-589 | the byte strings the decoder accepts are exactly the encodings of valid packets within the size bound, and two packets with the same bytes are the same packet |
| Packets.PacketRoundTrip | internal/dataplane/packet.go:305-589 | every packet that is encoded decodes back to itself, with nothing left over |
| Packets.PacketCanonical | internal/dataplane/packet.go:383-589 | every accepted byte string re-encodes to itself |
| Packets.MarshalPacket | internal/dataplane/packet.go:305-381 | the appending encoder writes the canonical bytes of a valid packet, and refuses an invalid or oversized one |
| Packets.UnmarshalPacket | internal/dataplane/packet.go:383-589 | the advancing decoder yields the packet that its bytes canonically stand for, or the error of the first part that fails, or refuses trailing bytes and invalid packets |
| Instants.PacketInterval | internal/dataplane/packet.go:191-193 | a packet whose only question is its interval is valid, and marshalled if it fits, exactly when the instant it is valid from is not later than the instant it is valid until |
| Instants.PacketsAreOrdered | internal/dataplane/packet.go:191-193 | no accepted packet has an interval that ends before it begins |
| PacketMeaning.LanesExactly | internal/dataplane/packet.go:246-265 | a packet is in one of three lanes: outside the first it carries a semantic predicate, mappings and closure, all of them; the lane decides the mapping status, and only a provisional packet may be uncertain |
| PacketMeaning.PacketsSay | internal/dataplane/packet.go:104-285 | of every accepted packet: only a resolved object has a value, no transformation, mapping, candidate or dimension is there twice, only a provisional packet is uncertain, what is superseded has a predecessor and what is current has none |
| PacketVectors.CorpusPacket | conformance/e3-s1/vectors.tsv:24-31 | two packets of the corpus, one provisional and one attested: each is encoded as the document there, byte for byte, and the document is decoded as that packet |
| Packets.SubjectRoundTrip | internal/dataplane/packet.go:104-285 | every subject that validation admits is within the decoder's limits and reads back |
| Packets.PredicateRoundTrip | internal/dataplane/packet.go:104-285 | the same for predicates |
| Packets.ObjectRoundTrip | internal/dataplane/packet.go:104-285 | the same for objects, their typed value present or null |
| Packets.ContextRoundTrip | internal/dataplane/packet.go:104-285 | the same for contexts and their sorted dimensions |
| Packets.TimeRoundTrip | internal/dataplane/packet.go:104-285 | the same for times |
| Packets.SourceRoundTrip | internal/dataplane/packet.go:104-285 | the same for sources |
| Packets.DerivationRoundTrip | internal/dataplane/packet.go:104-285 | the same for derivations, with transformations kept in execution order |
| Packets.EpistemicRoundTrip | internal/dataplane/packet.go:104-285 | the same for epistemic states, the confidence present or null |
| Packets.LifecycleRoundTrip | internal/dataplane/packet.go:104-285 | the same for lifecycles |
| Packets.ReadPacket | internal/dataplane/packet.go:383-589 | packet bytes that read, before validation, are already the encoder's own for the packet read |
| Packets.EncodePacket | internal/dataplane/packet.go:305-381 | the buffer gains the fourteen parts in order |
| Packets.DecodePacket | internal/dataplane/packet.go:383-589 | the offset agrees with the canonical packet reader on result, error and rest |
| Frames.FrameBijection | internal/dataplane/ontology.go:265-498 | the byte strings the decoder accepts are exactly the encodings of valid frames within the size bound, and two frames with the same bytes are the same frame |
| Frames.FrameRoundTrip | internal/dataplane/ontology.go:265-498 | every frame that is encoded decodes back to itself |
| Frames.FrameCanonical | internal/dataplane/ontology.go:329-498 | every accepted byte string re-encodes to itself |
| Frames.MarshalFrame | internal/dataplane/ontology.go:265-300 | the encoder writes the canonical bytes of a valid frame and refuses any other |
| Frames.UnmarshalFrame | internal/dataplane/ontology.go:329-425 | the decoder yields the frame its bytes canonically stand for, or refuses |
| Instants.FrameInterval | internal/dataplane/ontology.go:102-104 | the same exact condition on the interval of a frame |
| Instants.FramesAreOrdered | internal/dataplane/ontology.go:102-104 | no accepted frame has an interval that ends before it begins |
| FrameMeaning.FramesSay | internal/dataplane/ontology.go:71-223 | of every accepted frame: no role has two slots, a slot has distinct values exactly when it is resolved, the packets listed are exactly those that the slots name, and the frame is semantic exactly if it has mappings |
| FrameVectors.CorpusFrame | conformance/e4-ontology/vectors.tsv:2 | the attested frame of the corpus is encoded as the document there, byte for byte, and the document is decoded as that frame |
| Frames.SlotRoundTrip | internal/dataplane/ontology.go:176-223 | every slot that validation admits is within the decoder's limits and reads back |
| Frames.ReadSlot | internal/dataplane/ontology.go:427-463 | accepted slot bytes are the encoder's own |
| Frames.EncodeSlot | internal/dataplane/ontology.go:302-314 | appends the seven parts of a slot, its values by a loop |
| Frames.DecodeSlot | internal/dataplane/ontology.go:427-463 | agrees with the canonical slot reader |
| Frames.SortedDigestUnion | internal/dataplane/ontology.go:1013-1026 | the digests of all slots, each once and strictly sorted, whatever order the set is listed in |
| Frames.EvidenceIsUnion | internal/dataplane/ontology.go:71-174 | the evidence list of a valid frame is exactly that sorted union: no packet unused and none missing |
| Segments.Open | internal/artifactsegment/segment.go:90-107 | succeeds on a byte string exactly when it has the expected hash and is a segment of some sorted, self-hashed entries, and the result stores exactly those |
| Segments.SegmentsAreBuilt | internal/artifactsegment/segment.go:46-107 | the byte strings that are segments are exactly those the builder produces from some accepted source |
| Segments.Build | internal/artifactsegment/segment.go:46-88 | for an accepted source the canonical bytes of its sorted entries and their hash; for any other an error |
| Segments.AcceptedIsValid | internal/artifactsegment/segment.go:46-88 | a source is accepted exactly when its sorted form is a valid segment: no digest twice, in whatever order the source was |
| Segments.BuildOrderFree | internal/artifactsegment/segment.go:46-88 | sources with the same entries give the same bytes, whatever their order |
| Segments.VerifyEntries | internal/artifactsegment/segment.go:142-166 | the loop over the index succeeds only if the entries tile the tail without gap or overlap under strictly rising digests, and fails only if the data is no segment at all |
| Segments.VerifiedIsSegment | internal/artifactsegment/segment.go:142-166 | a verified index and body behind a checked header are byte for byte the segment of the entries read |
| Segments.SegmentContinues | internal/artifactsegment/segment.go:142-166 | a genuine segment passes the check of every one of its index entries |
| Segments.CheckEntry | internal/artifactsegment/segment.go:142-166 | the checks on one index entry hold exactly when it continues the entries before it |
| Segments.EntryAt | internal/artifactsegment/segment.go:112-122 | the stored entry at every index below the count, an error above; every slice in bounds |
| Segments.Find | internal/artifactsegment/segment.go:124-140 | the binary search agrees with the finite map: the stored body for every present digest, nothing for every absent one |
| Segments.ContentsExact | internal/artifactsegment/segment.go:124-140 | the entries of a segment are a finite map: no digest twice, nothing lost, nothing added |
| Segments.EntriesDistinct | internal/artifactsegment/segment.go:142-166 | no two entries of a sorted list share a digest |
| Segments.SortedStrict | internal/artifactsegment/segment.go:46-88 | sorting leaves no two equal digests side by side exactly when the source had none |
| Segments.Fill | internal/artifactsegment/segment.go:71-87 | the array filled with running offsets holds header, index and bodies of the entries |
| Segments.FillEntry | internal/artifactsegment/segment.go:79-86 | writes one index entry and one body and leaves every other byte as it was |
| Segments.HeaderHasFields | internal/artifactsegment/segment.go:71-77 | the header fields read back from the header written |
| Segments.HeaderFromFields | internal/artifactsegment/segment.go:90-107 | header bytes whose fields pass the checks are the header written: no spare bit is left |
| SegmentLayout.HeaderLayout | internal/artifactsegment/segment.go:71-77 | which byte of the header holds what, read back as big-endian numbers: magic, kind, count, index offset, body offset and total size |
| SegmentLayout.EntryLayout | internal/artifactsegment/segment.go:78-86 | each index entry holds the digest, where its body begins and how long it is, and the body stands there, right behind the one before |
| SegmentLayout.BodiesFill | internal/artifactsegment/segment.go:60-86 | the bodies fill the segment to its last byte |
| Limiter.WindowBound | internal/labapi/server.go:521-553 | over any run of calls with non-decreasing times, whatever other keys do and whatever is evicted, one key gets at most its burst plus rate times length inside any window, if ten minutes refill its burst |
| Limiter.WindowBoundExact | internal/labapi/server.go:521-553 | for whole rates and bursts and room for two keys, that bound holds of all runs exactly when the burst is at most ten minutes of the rate; beyond that a run that is evicted in between is granted two bursts |
| Limiter.RefinesUnbounded | internal/labapi/server.go:521-553 | leaving out the calls refused for lack of room, every answer is that of a limiter that never evicts |
| Limiter.RoomRefusal | internal/labapi/server.go:521-553 | a call is refused for room exactly when its key is new and as many other keys as fit were all used within the last ten minutes |
| Limiter.TableIsRecent | internal/labapi/server.go:508-520 | the table never exceeds its maximum, and each bucket was last written by a call of its own key |
| Limiter.Budget | internal/labapi/server.go:521-553 | grants since a time plus the tokens left never exceed the burst plus the refill since then: the invariant of a run |
| Limiter.TrimKeepsLevel | internal/labapi/server.go:526-532 | evicting an idle key changes no level, as its bucket would be full again anyway |
| LimiterExact.GrantedExactly | internal/labapi/server.go:521-553 | if ten minutes refill the burst, a call that finds room in the table is granted exactly when the grants of every window that ends with it, itself included, stay within burst plus refill |
| LimiterExact.SomeWindowIsFull | internal/labapi/server.go:521-553 | at any time there is a window whose grants and the tokens left are together exactly burst plus refill: the bound cannot be lowered |
| Limiter.TokenLimiter.Allow | internal/labapi/server.go:521-553 | the new table and the answer are those of one step: eviction only for a new key in a full table, refill, at most one token spent |
| Limiter.TokenLimiter.EvictIdle | internal/labapi/server.go:526-532 | the loop removes exactly the keys not used for more than ten minutes |
| Limiter.TokenLimiter.constructor | internal/labapi/server.go:518-520 | a new limiter tracks no key |
| Spools.HexInjective | internal/cas/cas.go:24-27 | two byte strings with the same hexadecimal form are the same |
| Spools.DigestTextInjective | internal/cas/cas.go:24-27 | two digests with the same text form are the same, so a store path names one body |
| Observations.EnvelopeRoundTrip | internal/observation/observation.go:146-225 | every valid envelope within the size bound reads back from its encoding |
| Observations.ReadEnvelope | internal/observation/observation.go:166-225 | accepted envelope bytes are the encoder's own |
| Egress.ManifestLast | internal/egressworker/worker.go:298-358 | in every disk that any run of attempts and any crashes can leave, a present manifest is valid and all its six artifacts exist and hash to the digests it lists |
| Egress.VerifyAgrees | internal/egressworker/worker.go:362-415 | verifying a spool that an attempt completed returns the very result the attempt reported exactly when the fetch kept to its order (same URL, redirect limit, non-empty body in bound, media type of at most 255 bytes), and otherwise nothing |
| Egress.RunVerifies | internal/egressworker/worker.go:242-415 | in every disk that a run of loaded orders and any crashes can leave, verification of any spool returns a result exactly if some completed attempt of the run reported that result for it, from a fetch that kept to its order |
| Egress.AlwaysSealed | internal/egressworker/worker.go:298-358 | whatever ran and wherever it crashed, a spool with a manifest holds exactly the files of one attempt of that run that completed |
| Egress.ProgramShape | internal/egressworker/worker.go:242-358 | every attempt first creates its own new spool and touches no other; it either writes no manifest or writes it when the spool is complete, followed by its circuit file only |
| Egress.ManifestOfValid | internal/egressworker/worker.go:336-346 | the manifest a worker builds always passes the worker's own check |
| Egress.ValidateManifest | internal/egressworker/worker.go:444-473 | the single pass accepts exactly the manifests of six sorted safe paths: the five required ones and one stored body |
| Egress.VerifySpool | internal/egressworker/worker.go:362-415 | manifest, artifact loop and the checks on the result, step by step, return exactly what the specification of a complete, rehashed spool says |
| Egress.VerifyResult | internal/egressworker/worker.go:386-414 | the stored order and result against the manifest, then the evidence, check by check |
| Egress.VerifyEvidence | internal/egressworker/worker.go:402-413 | the envelope, the body reference and the stored body against the result, check by check |
| Egress.CompleteVerified | internal/egressworker/worker.go:362-415 | for the files of any completed attempt and any body limit, what verification returns |
| Egress.CompleteReadsBack | internal/egressworker/worker.go:475-483 | every file of a completed spool, read under the limit of its kind, is what the attempt wrote; the stored body alone is out of reach when it is empty or above the verifier's limit |
| Egress.ArtifactsMatch | internal/egressworker/worker.go:377-385 | rehashing a completed spool succeeds exactly when the stored body is within the verifier's limit |
| EgressSoundness.VerifiedExactly | internal/egressworker/worker.go:362-415 | for any directory at all: verification returns a result exactly when a valid manifest is there, every listed artifact hashes to its digest, and order, result, envelope and body agree, each agreement spelled out |
| EgressSoundness.VerifiedAttests | internal/egressworker/worker.go:377-385 | whatever was done to the directory, if it verifies then its manifest is valid and each of its artifacts has the listed digest |
| EgressSoundness.ChangedArtifactFails | internal/egressworker/worker.go:377-385 | changing any listed file of a spool that verifies makes it fail, unless the new content has the hash of the old |
| EgressSoundness.ManifestDecides | internal/egressworker/worker.go:362-415 | two directories with the same manifest that both verify hold the same artifacts and give the same result, unless different contents collide |
| EgressSoundness.ManifestExactly | internal/egressworker/worker.go:444-473 | a manifest is valid exactly when its artifacts are the five fixed files and one body of the store, strictly sorted, with safe paths and well-formed digests |
| EgressSoundness.AuthorityExactly | internal/egressworker/worker.go:169-234 | the combinations of class, decision and purpose that an order may have are exactly nine |
| EgressSoundness.FetchRecovered | internal/egressworker/worker.go:298-358 | a complete spool loses nothing: the whole fetch and its duration can be told from its files, and the result says the same as the envelope |
| PathNames.SafeExactly | internal/egressworker/worker.go:485-490 | a path is safe exactly when it is a dot, or has no backslash and no empty, dot or dot-dot name between its slashes |
| PathNames.HexAt | internal/cas/cas.go:24-27 | the digits of each byte stand in order, the high one first, in lower case |
| Egress.Worker.CheckCircuit | internal/egressworker/worker.go:492-507 | allows exactly an origin without a circuit file, or with a readable one that is not open or whose time has come |
| Egress.LoadWorkOrder | internal/egressworker/worker.go:125-145 | a loaded order is valid, carries the requested ID and the hash of its own bytes |
| Egress.PathsDistinct | internal/egressworker/worker.go:298-358 | the work order's path is none of the paths written after it, whatever the body hashes to |
| Egress.Worker.Execute | internal/egressworker/worker.go:242-296 | one attempt under the lease, for any order value and any private bytes: its log of disk operations and its result are those of the program; without the lease nothing happens, and the lease is given back |
| Egress.Worker.Admit | internal/egressworker/worker.go:242-262 | admits exactly a valid order whose bytes have its digest, under an enabled control that revokes neither it nor its origin, within its time window |
| Egress.Worker.ExecuteLeased | internal/egressworker/worker.go:263-296 | an admitted attempt checks its circuit, creates its spool exclusively, then retrieves; it stops at the first refusal |
| Egress.Worker.ExecuteFetch | internal/egressworker/worker.go:298-358 | retrieval, evidence, result, manifest, circuit reset in that order, each failure recorded |
| Egress.Worker.WriteBundle | internal/observation/observation.go:262-312 | evidence files are written in order up to the first size or disk failure |
| Egress.Worker.Publish | internal/egressworker/worker.go:323-358 | the result, the manifest and the circuit reset, from evidence already on disk; a size refusal stops before the manifest |
| Egress.Worker.Complete | internal/egressworker/worker.go:315-358 | the same, from the evidence files read back |
| Egress.Worker.RecordFailure | internal/egressworker/worker.go:509-522 | a failure is counted and, at the limit, opens the breaker for the cooldown |
| Egress.Worker.CreateSpool | internal/egressworker/worker.go:551-572 | a spool directory is created exactly when there is none |
| Egress.Worker.WriteFile | internal/atomicfile/atomicfile.go:12-62 | one bounded write: the whole file at once, or nothing |
| EgressRuns.RetrievedOnce | internal/egressworker/worker.go:242-296 | over any run with crashes and restarts no order and digest is retrieved twice, and none whose spool was already there |
| EgressRuns.DigestRetrievedOnce | internal/egressworker/worker.go:242-296 | unless two different orders collide under the hash, no order digest is retrieved twice, if every order value is what its bytes decode to |
| EgressRuns.CircuitBound | internal/egressworker/worker.go:492-549 | from any disk, over any run in which every retrieval of an origin ends in a recorded failure, at most limit plus window over cooldown of its retrievals start in any window, whatever the order of the attempts' times |
| EgressRuns.BreakerHolds | internal/egressworker/worker.go:492-549 | the invariant of such a run: the breaker is open until the cooldown after its last opening, and openings are a cooldown apart |
| EgressRuns.CircuitStep | internal/egressworker/worker.go:492-522 | after an attempt the circuit of an origin is as before, or exactly one failure further |
| EgressRuns.ExecutedShape | internal/egressworker/worker.go:242-296 | however early an attempt is cut off, it starts at most one retrieval, after creating its own new spool with its circuit closed |
| EgressBreaker.RetrievesExactly | internal/egressworker/worker.go:242-296 | on any disk, a retrieval starts exactly for a valid, untouched, permitted order in force under a new key whose origin is not held back: no circuit file, none that is open, or one whose time has come |
| EgressBreaker.BreakerExact | internal/egressworker/worker.go:492-522 | after any run of recorded failures, a ready attempt starts a retrieval exactly when the cooldown since the last opening is over; if nothing opened, exactly when the starting file does not hold it back; and never once the file is unreadable or counts more than it can |
| EgressBreaker.SuccessClears | internal/egressworker/worker.go:524-526 | an attempt that completes leaves a circuit that counts nothing and holds nothing back |
| ArchiveOrders.SelectionsAreABijection | internal/archiveimport/workorder.go:110-175 | the selections of a valid order are a bijection with collections times routes: every pair has exactly one, and none is outside |
| ArchiveOrders.SelectedExactly | internal/archiveimport/workorder.go:189-200 | in a valid order the lookup finds the one matching selection for every permitted pair and nothing for any other pair |
| ArchiveOrders.SelectedCapture | internal/archiveimport/workorder.go:189-200 | the binary search over the sorted keys finds what the specification says |
| ArchiveOrders.ValidateOrder | internal/archiveimport/workorder.go:110-175 | the validation accepts exactly the orders with bounded budgets, sorted scope and one in-scope selection per pair |
| ArchiveOrders.ValidateSelections | internal/archiveimport/workorder.go:142-154 | the single pass with the previous key and the table of keys accepts exactly the strictly sorted, in-scope selections |
| ArchiveOrders.Search | internal/archiveimport/workorder.go:189-200 | the halving search finds the number of smaller keys |
| ArchiveOrders.PositionFinds | internal/archiveimport/workorder.go:273-276 | in a sorted list a key is present exactly at its position |
| ArchiveOrders.Contains | internal/archiveimport/workorder.go:273-276 | membership in a sorted list |
| ArchiveOrders.ProductSize | internal/archiveimport/workorder.go:110-175 | the counting argument: a product of finite sets has the product of their sizes |
| ArchiveIndex.ParseIndexLine | internal/archiveimport/index.go:135-191 | a parsed line has a valid identity, the requested collection and route, and keeps its own bytes |
| ArchiveIndex.ScanLines | internal/archiveimport/index.go:73-129 | the loop with its tables of identities and provider digests succeeds exactly on one filled line, and only if it confirms the selection |
| ArchiveIndex.ParseIndexResponse | internal/archiveimport/index.go:73-129 | a response yields its one confirmed capture or nothing |
| ArchiveIndex.ResolvesOnce | internal/archiveimport/index.go:73-129 | one response resolves under at most one collection and one route of an order |
| ArchiveMeaning.ResolvedExactly | internal/archiveimport/index.go:73-191 | a response resolves to a capture exactly when its only line that is not blank records that capture, the order selects it, and line, response and record are within bounds |
| ArchiveIndex.RangeCovers | internal/archiveimport/index.go:66-71 | the range requested, read as two numbers, begins at the offset and is as long as the capture |
| ArchiveIndex.RangeExactly | internal/archiveimport/index.go:235-260 | a range response is accepted exactly when it is partial, as long as the capture, and its Content-Range names the first and the last byte of the capture and a total beyond them |
| ArchiveIndex.WARCPathDeterminesCollection | internal/archiveimport/index.go:213-218 | a valid archive path belongs to one collection only |
| ArchiveSpool.PublishVerifies | internal/archiveimport/spool.go:84-228 | if publication succeeds, verification returns the same evidence exactly when both header texts of the record that the inputs parse to are UTF-8; otherwise it returns nothing |
| ArchiveSpool.EvidenceOfRecord | internal/archiveimport/spool.go:144-181 | the headers of the evidence that publication reports are those of the record the inputs parse to |
| ArchiveSpool.CrashesFail | internal/archiveimport/spool.go:84-228 | at every crash point before the final manifest verification fails, and before the evidence manifest so does the raw check that guards the parser |
| ArchiveSpool.ResolvesUniquely | internal/archiveimport/spool.go:230-279 | the index record of verified evidence resolves, to its capture, under exactly one collection and route of its order |
| ArchiveSpool.VerifyRawFrame | internal/archiveimport/spool.go:230-279 | verification of the raw evidence depends on the five raw files only, so the derived files cannot change it |
| ArchiveSpool.PlanOrder | internal/archiveimport/spool.go:84-181 | the evidence manifest is the fifth write, and the final manifest is the last write of a complete publication only |
| ArchiveSoundness.RawExactly | internal/archiveimport/spool.go:211-279 | for any directory: the raw evidence verifies exactly when its manifest is valid, every listed artifact has its digest and size, and order, index record, record and response agree |
| ArchiveSoundness.VerifiedExactly | internal/archiveimport/spool.go:183-209 | for any directory: verification returns evidence exactly when the final manifest is valid, what it lists has its digests and sizes, the raw evidence verifies, and body and capture file are what the record gives again |
| ArchiveSoundness.EvidenceNamesFiles | internal/archiveimport/spool.go:183-279 | the digests and sizes in verified evidence are those of the files themselves, and the response named the first and the last byte of this record and delivered it whole |
| ArchiveSoundness.EvidenceWithinOrder | internal/archiveimport/spool.go:183-279 | verified evidence stays within the collections, routes and budgets of its order, and never passes for a current statement of the publisher |
| ArchiveSoundness.ChangedArtifactFails | internal/archiveimport/spool.go:183-279 | changing any listed file of a capture that verifies makes it fail, unless the new content has the hash of the old |
| ArchiveSpool.CheckArtifacts | internal/archiveimport/spool.go:192-197 | the loop succeeds exactly when every listed artifact is there with its digest and size |
| ArchiveSpool.ResolveEverywhere | internal/archiveimport/spool.go:257-268 | the nested loops collect what the index record resolves to under every collection and route |
| ArchiveSpool.VerifyRawEvidence | internal/archiveimport/spool.go:230-279 | manifest, artifacts, order, index record, compressed record and range response in that order, each step written out, yield exactly what the specification says |
| ArchiveSpool.VerifySpool | internal/archiveimport/spool.go:183-228 | the verifier yields exactly what its specification says |
| ArchiveSpool.VerifyRest | internal/archiveimport/spool.go:198-228 | its second half: body and capture evidence against the record parsed again, and against the range response read again |
| ArchiveSpool.Output.PublishCapture | internal/archiveimport/spool.go:84-181 | into a new directory the writes are those of the plan, in order; into an existing one nothing is written |
| ArchiveSpool.Output.PublishEvidence | internal/archiveimport/spool.go:98-143 | the raw phase and, once it is sealed, the derived phase |
| ArchiveSpool.Output.PublishDerived | internal/archiveimport/spool.go:144-181 | the derived phase re-reads what was written, then body, capture and final manifest |
| ArchiveSpool.Output.WriteFile | internal/atomicfile/atomicfile.go:12-62 | one bounded, atomic write |
| JsonBounded.ReadsExactlyDocuments | internal/jsonbounded/jsonbounded.go:189-274 | a whole token stream is read exactly when it is one document whose nesting, container sizes and scalar sizes are within policy and whose objects repeat no key at any level, and it is read as that document |
| JsonBounded.ValueSound | internal/jsonbounded/jsonbounded.go:189-274 | what is read is the tokens of a document within policy, and the rest is what follows it |
| JsonBounded.ValueComplete | internal/jsonbounded/jsonbounded.go:189-274 | the tokens of every document within policy are read, whatever follows |
| JsonBounded.Validator.Token | internal/jsonbounded/jsonbounded.go:177-187 | the next token, exactly when there is one and the token budget allows it |
| JsonBounded.Validator.Value | internal/jsonbounded/jsonbounded.go:189-219 | the recursive validator succeeds exactly when the reading succeeds and costs no more than the token budget left, and has consumed exactly that reading |
| JsonBounded.Validator.ObjectBody | internal/jsonbounded/jsonbounded.go:221-249 | the same for the loop over members with its table of seen keys |
| JsonBounded.Validator.ArrayBody | internal/jsonbounded/jsonbounded.go:251-263 | the same for the loop over items |
| JsonBounded.Validator.Close | internal/jsonbounded/jsonbounded.go:265-274 | the expected closing token, and only that |
| JsonBounded.Check | internal/jsonbounded/jsonbounded.go:52-88 | what precedes decoding accepts exactly bounded UTF-8 text, paired escapes, and one document within policy of at most the admitted tokens |
| JsonBounded.EscapesAccepted | internal/jsonbounded/jsonbounded.go:93-135 | on a lexically well-formed text the scan accepts exactly when inside every string every surrogate escape is half of a high-then-low pair |
| JsonBounded.InsideAccepts | internal/jsonbounded/jsonbounded.go:93-135 | the same for one string and whatever follows it |
| JsonUnicode.EscapesAreText | internal/jsonbounded/jsonbounded.go:93-135 | a string of escapes passes the scan exactly when its code units are the UTF-16 encoding of some text of Unicode scalar values |
| JsonUnicode.DigitsRead | internal/jsonbounded/jsonbounded.go:137-156 | four hexadecimal digits, in any mixture of cases, are read as the code unit they are the digits of |
| JsonBounded.ValidateUnicodeEscapes | internal/jsonbounded/jsonbounded.go:93-135 | the index-moving scan, on any bytes at all, stays in bounds and decides the specification |
| JsonBounded.ParseHexCodeUnit | internal/jsonbounded/jsonbounded.go:137-156 | the code unit of four hexadecimal digits, or nothing; never out of bounds |
| Titles.TitleCollapses | internal/archiveprofile/profile.go:74-214 | where lower-casing keeps byte positions, and whatever lies behind the body in memory, extraction returns exactly the body bytes from the end of the first title tag in the head to the next `<`, succeeds only if that `<` begins a closing title tag, and never slices out of range: the comment- and script-skipping search collapses to the next `<` |
| Titles.TitleOfUniformBody | internal/archiveprofile/profile.go:74-96 | this holds of every UTF-8 body whose runes keep their widths when lower-cased |
| Titles.TitleExact | internal/archiveprofile/profile.go:74-96 | behind a front that opens the title and keeps its width, extraction from the lower-cased body returns the title exactly when lower-casing keeps the width of the title, whatever follows |
| Titles.FrontExact | internal/archiveprofile/profile.go:74-96 | behind a front, all titles of unchanged width are extracted exactly when lower-casing keeps the width of the front: a shift before the title breaks some of them |
| Titles.PageExact | internal/archiveprofile/profile.go:74-96 | on a page that is only a title, extraction from the lower-cased page returns the title exactly when lower-casing keeps its width |
| Titles.KelvinTitleIsCut | internal/archiveprofile/profile.go:74-96 | with the Kelvin sign lower-cased to `k`, extraction from the page with that title returns one byte that is not UTF-8 |
| Titles.KelvinShiftsTitle | internal/archiveprofile/profile.go:74-96 | with a Kelvin sign before the head, extraction from the page titled `no` returns the end of the opening tag |
| Titles.DocumentSlice | internal/archiveprofile/profile.go:74-96 | for any front, title and rest, extraction takes as many bytes as the lower-cased title has, from where the lower-cased front ends |
| Titles.TitleStartStays | internal/archiveprofile/profile.go:98-143 | an opening title tag that is found stays found when text is appended |
| TitleTags.TitleStartVisible | internal/archiveprofile/profile.go:98-165 | among the tags that are visible, outside comments, scripts and styles, the title starts where the first one ends that opens a title behind the first that opens a head, if none between them closes a head |
| TitleTags.ExtractsVisible | internal/archiveprofile/profile.go:74-96 | extraction returns exactly what stands between that tag and the next visible tag that closes a title |
| TitleTags.TagExactly | internal/archiveprofile/profile.go:167-218 | a tag is complete exactly when a name stands behind its opening and a closing bracket outside quotes behind the name; it ends with the first such bracket |
| Titles.LowerJoins | internal/archiveprofile/profile.go:74-96 | lower-casing two UTF-8 texts joined is joining them lower-cased |
| Titles.LowerKeepsPositions | internal/archiveprofile/profile.go:74-96 | rune-by-rune lower-casing that keeps every width keeps every `<` in place |
| Titles.NextTag | internal/archiveprofile/profile.go:167-214 | any tag found lies at or after the offset, ends strictly after it starts, and is the complete tag its `<` starts |
| Titles.FindClosing | internal/archiveprofile/profile.go:145-165 | a closing tag found is one of the wanted name, at or after the offset |
| Titles.FindOpening | internal/archiveprofile/profile.go:98-143 | an opening tag found is one of the wanted name, at or after the offset |
| Titles.TagAt | internal/archiveprofile/profile.go:182-211 | a complete tag has a non-empty name, which stands right behind its `<` or `</` |
| Titles.ScanTag | internal/archiveprofile/profile.go:182-211 | the loops over a tag's name and over what is left of it, with its quotes, decide the tag that a `<` starts |
| Titles.ScanNextTag | internal/archiveprofile/profile.go:167-214 | the scanning loop, which strictly advances on every turn, finds the first tag outside comments |
| Titles.FindClosingTag | internal/archiveprofile/profile.go:145-165 | the recursive search through raw-text elements agrees with its specification and terminates |
| Titles.FindOpeningTag | internal/archiveprofile/profile.go:98-143 | both opening searches, with and without a boundary, agree with their specification |
| Titles.ExtractTitle | internal/archiveprofile/profile.go:74-96 | the extraction agrees with its specification, with a slice that may reach into the memory behind the body and panics only past it |
| EnginePointers.ResolversAgree | internal/labengine/engine.go:287-347 | the two implementations, written separately: whenever neither refuses a pointer they agree, on the value or on its absence |
| EnginePointers.ResolversFindTheSame | internal/labengine/engine.go:287-347 | on documents without huge arrays the adapter finds a value exactly when it admits the pointer and the engine finds that value |
| EnginePointers.DescentAgrees | internal/labengine/engine.go:294-323 | from any place on, the engine goes where the adapter goes or refuses an index |
| EnginePointers.DecodingAgrees | internal/labengine/engine.go:326-347 | the engine's decoding of a token from any position, with any output so far, is the adapter's decoding of the rest |
| EnginePointers.IndexAgrees | internal/labengine/engine.go:308-320 | an index is what the adapter takes it for, or is refused by the engine for its size alone |
| EnginePointers.PointerResolves | internal/labengine/engine.go:287-347 | for every document and every path in it with indexes below the engine's limit, the escaped pointer of the path resolves in the engine to the sub-document there |
| EnginePointers.DecodeRaw | internal/labengine/engine.go:326-347 | the engine's loop, writing out one byte or one escape at a time, computes that decoding |
| EnginePointers.ResolvePointer | internal/labengine/engine.go:287-324 | the engine's loop over the tokens, with its own index branch, agrees with the specification of the engine's resolver |
| Pointers.AdapterResolves | internal/adapter/adapter.go:510-614 | for every document and every path in it within the length and token limits, with UTF-8 keys without U+0000, the escaped pointer of the path resolves in the adapter to the sub-document there |
| Pointers.ParseUint | internal/adapter/adapter.go:577-591 | the digit loop of the number parser, with its cutoff and its 64-bit wrap, yields the number of a digit text below the limit and nothing else |
| Pointers.EscapeRoundTrip | internal/adapter/adapter.go:593-614 | decoding undoes escaping, and an escaped token never holds a separator |
| PointerExamples.Section5 | internal/adapter/adapter.go:510-614 | the escaped pointers of section 5 of RFC 6901 resolve in both implementations to the members they name there |
| Pointers.DecodePointerToken | internal/adapter/adapter.go:593-614 | the loop that moves by one byte or one escape decodes the token, or refuses a bad escape |
| Pointers.ParseArrayIndex | internal/adapter/adapter.go:577-591 | no sign, no leading zero, digits only, and below the limit |
| Pointers.ValidateJSONPointer | internal/adapter/adapter.go:552-575 | admits exactly bounded, rooted UTF-8 pointers with few tokens, all of which decode |
| Pointers.WalkTokens | internal/adapter/adapter.go:520-550 | the adapter's loop over the tokens reaches what the recursive walk reaches |
| Pointers.ResolveJSONPointer | internal/adapter/adapter.go:510-550 | agrees with the specification of the adapter's resolver |
| AtlasState.ValidateRegistry | internal/atlas/state.go:282-350 | the loop with its three tables accepts exactly the sorted registries that repeat no ID, origin or execution ID, whose records are admissible, and that hold a public record for every policy |
| AtlasState.AddExecutionIDs | internal/atlas/state.go:329-334 | the inner loop succeeds exactly when the execution IDs so far and these repeat nothing |
| AtlasState.PublicRecordsBounded | internal/atlas/state.go:282-350 | in a valid registry there are at most as many public records as candidates |
| AtlasState.FindCandidate | internal/atlas/selection.go:125-132 | the candidate found has the ID; none is found only if none has it |
| Metrics.MetricsConserved | internal/atlas/metrics.go:96-160 | for every valid registry each of the eight state maps sums to the number of candidates and has no negative count |
| Metrics.CapabilitiesConserved | internal/atlas/capability.go:263-331 | access classes and price states too sum to the total, none negative |
| Metrics.AtOrBeyondIsSuffixSum | internal/atlas/metrics.go:140-144 | the count at or beyond a stage is the sum of the stage counts from that stage on |
| Metrics.Conservation | internal/atlas/metrics.go:96-160 | whatever states the records are in, exact counters of a dimension sum to the candidates, none negative |
| MetricsMeaning.CountersCountCandidates | internal/atlas/metrics.go:82-192 | in all eight dimensions the counter of a state is the number of candidates in it: those whose public record says so, and for the starting state also those without a record |
| Metrics.BuildMetrics | internal/atlas/metrics.go:82-192 | metrics exist exactly for a valid selection and registry, and every counter is exactly the number of candidates in its state |
| Metrics.Count | internal/atlas/metrics.go:128-160 | one more record keeps every counter exact |
| Metrics.Move | internal/atlas/metrics.go:130-160 | one count leaves the default state for the record's state |
| Metrics.Reach | internal/atlas/metrics.go:142-144 | the record is counted at every stage up to its own and at no later one |
| Metrics.StageIndex | internal/atlas/state.go:75-82 | every stage stands at its own index of the technical order |
| Metrics.CapabilityCounts.Add | internal/atlas/capability.go:292-331 | one more record keeps the counters exact, replacing a default or adding to the total |
| Metrics.CapabilityCounts.constructor | internal/atlas/capability.go:263-290 | all origins start in the default states |
| Frontier.JobsAreSafe | internal/atlas/frontier.go:110-191 | in the plan of a valid registry every job is for a public record with a completed policy that permits live access, in no suspended or revoked state, with a due time that has come and no cooldown running; its priority is positive and its factor product fits 64 bits |
| Frontier.OneDecisionEach | internal/atlas/frontier.go:131-183 | as many decisions as candidates, the one of each candidate among them, and for different candidate IDs no origin twice |
| Frontier.JobsAreScheduled | internal/atlas/frontier.go:131-182 | the jobs are exactly those of the candidates decided to be scheduled |
| Frontier.OrderFree | internal/atlas/frontier.go:183-190 | the plan does not depend on the order in which candidates are listed |
| Frontier.ScheduledStays | internal/atlas/frontier.go:150-175 | what is scheduled at one time is scheduled at any later time |
| Frontier.JobsStay | internal/atlas/frontier.go:110-191 | an origin with a job at one time has a job of the same priority at any later time |
| Frontier.PriorityFits | internal/atlas/frontier.go:50-108 | for every valid active scheduler the priority is positive and the factor product is at most ten thousand million |
| Frontier.JobOrder | internal/atlas/frontier.go:184-189 | priority, then origin, is a strict total order on jobs of different origins |
| FrontierMeaning.JobsExactly | internal/atlas/frontier.go:110-191 | a job is in the plan exactly when a candidate has a public record that earned it: live permission, nothing withdrawn, due, and the priority that its factors and cost give |
| FrontierMeaning.DecisionsExplained | internal/atlas/frontier.go:110-166 | each decision is the one situation that the public record of its candidate is in |
| FrontierMeaning.OneExplanation | internal/atlas/frontier.go:110-166 | no record is in two of those situations |
| FrontierMeaning.PlanOrder | internal/atlas/frontier.go:167-191 | jobs come by falling priority and then by origin, decisions by origin |
| Frontier.BuildDryRunFrontier | internal/atlas/frontier.go:110-191 | a plan exists exactly for a valid registry, and it is the sorted decisions of all candidates and the sorted jobs of the scheduled ones |
| Frontier.Decide | internal/atlas/frontier.go:138-175 | the checks in order decide the specified action |
| Frontier.CollectPublic | internal/atlas/frontier.go:124-130 | the table holds the last public record of every ID |
| Sorting.SortedUniquely | internal/atlas/frontier.go:183-190 | a list sorted by a strict order is determined by its elements, so the sorting algorithm does not matter |
| Sorting.SortBy | internal/atlas/frontier.go:183-190 | sorts by a strict order and loses nothing |
| OntologyDiff.CompatibleIsSurvival | internal/ontologyfabric/diff.go:22-157 | a report says compatible exactly when everything in the old version is in the new one unchanged |
| OntologyDiff.CompatibleWithItself | internal/ontologyfabric/diff.go:22-157 | compatibility is reflexive |
| OntologyDiff.CompatibleAlongChain | internal/ontologyfabric/diff.go:22-157 | along any chain of versions, each compatible with the one before, the last is compatible with the first |
| OntologyDiff.Diff | internal/ontologyfabric/diff.go:22-74 | a report exists exactly for two valid versions of one module; it lists exactly the changes, and says compatible exactly when everything in the old version is in the new one unchanged |
| OntologyDiff.Report.DiffConcepts | internal/ontologyfabric/diff.go:76-95 | appends exactly the changes between two lists of concepts and keeps the flag right |
| OntologyDiff.Report.DiffRoles | internal/ontologyfabric/diff.go:97-132 | the same for roles |
| OntologyDiff.Report.DiffFrames | internal/ontologyfabric/diff.go:134-157 | the same for frames |
| OntologyDiff.Report.AppendSetChanges | internal/ontologyfabric/diff.go:33-46 | the same for the plain sets of a module |
| OntologyDiff.RoleAdditive | internal/ontologyfabric/diff.go:97-132 | two versions of a role differ in nothing reported exactly when they are equal |
| OntologyDiff.FrameAdditive | internal/ontologyfabric/diff.go:134-157 | two versions of a frame type differ in nothing reported exactly when they are equal |
| DiffMeaning.RoleCategories | internal/ontologyfabric/diff.go:97-132 | between two versions of a role a restrictive change is reported exactly when some number of values is no longer admitted, a broadening one exactly when one is newly admitted, a change of meaning exactly when the value type is another |
| DiffMeaning.ChangesExactly | internal/ontologyfabric/diff.go:22-157 | a report lists exactly what was added, removed or changed between the two versions, each under its category |
| EgressCases.CaseVerifies | internal/egressworker/worker.go:298-415 | for any hash there are lawful formats and an order such that one attempt publishes its spool for any media type and any body of at most one byte, and the spool verifies exactly if the body is not empty and the media type has at most 255 bytes |
| EgressCases.CasePublished | internal/egressworker/worker.go:242-358 | a run of that one attempt from an empty disk leaves the complete spool behind |
| EgressCases.EmptyBodyFails | internal/egressworker/worker.go:362-415 | a fetch with an empty body completes and does not verify |
| EgressCases.LongMediaTypeFails | internal/egressworker/worker.go:362-415 | a fetch with a media type of 256 bytes completes and does not verify |
| EgressCases.KeptFetchVerifies | internal/egressworker/worker.go:362-415 | a fetch that keeps to its order completes and verifies |
| ArchiveCases.CaseVerifies | internal/archiveimport/spool.go:84-228 | for any hash and any two header texts there are lawful formats, an order, a capture and a range response whose publication succeeds, and it verifies exactly if both header texts are UTF-8 |
| ArchiveCases.BadLanguageFails | internal/archiveimport/spool.go:84-228 | a record with the byte 0xff as its Content-Language is published and does not verify |
| ArchiveCases.NoHeadersVerify | internal/archiveimport/spool.go:84-228 | a record without either header is published and verifies |
| ArchiveCases.SealedReadsBack | internal/archiveimport/spool.go:98-143 | an input whose sealed bytes say what it says is read back from its raw files as it is |
| Laws.EgressLaws | internal/egressworker/worker.go:585-595 | for any hash, order decoder and URL policy the formats built here meet every law that the worker's theorems ask for |
| Laws.ArchiveLaws | internal/archiveimport/workorder.go:212-224 | the same for the archive importer, for any index syntax, order decoder and header texts |
| Egress.ObservableIsValid | internal/observation/observation.go:69-128 | a fetch has a valid envelope exactly under the conditions the evidence rests on |
| BreakerCases.HeldForTheCooldown | internal/egressworker/worker.go:492-522 | an outage: after one failure that opens the breaker, another order of that origin is retrieved exactly from the end of the cooldown on |
| FrameVectors.CorpusEnvelope | conformance/observation/vectors.json:6-11 | the first envelope of the corpus is encoded as the document there, byte for byte |

## Left out

- HTTP servers and clients, commands, flag parsing, MCP transport, the website and scripts: plumbing without a hard invariant.
- The codecs of the other documents (batch manifest, query, result, delta, economic event, snapshot, mapping claim, ontology module, universe): they repeat the packet pattern.
- Error texts and most error kinds: outside the CBOR layer a refusal is one value, so which check refused first is not captured.
- Nil and empty slices are one value; `sort.Slice` is modelled by its result, or by insertion.
- Symbolic links, link counts, devices, permissions and fsync: a directory is a map from paths to bytes. The worker's lease is a flag of the one running process.
- Spool directories and circuit files are keyed by order, digest and origin rather than by joined path text; validated IDs hold no separator.
- Egress orders: the checks on URL, hosts and approval reference are one predicate each, supplied as parameters.
- Egress.Worker.CreateSpool: only the spool directory is created and tested for; the order directory above it and the checks that both are real directories are not modelled.
- EgressRuns.DigestRetrievedOnce: speaks of order values that are what their bytes decode to, as loading leaves them; execution does not check that again.
- Egress.VerifyAgrees: speaks of the same order values.
- Egress.RunVerifies: speaks of runs of the same order values.
- EgressBreaker.BreakerExact: supposes that the end of the last cooldown, as it is formatted, reads back; formats of which this is true exist (`Laws.EgressLaws`).
- ArchiveOrders.ValidateOrder: the syntax of origins, routes, timestamps, approval times and approval references is given by parameters.
- Observations.EnvelopeRoundTrip: the envelope codec is modelled by functions only, not by buffer and offset.
- Limiter.WindowBound: tokens and minutes are real numbers; float64 rounding and the saturation of very long durations are not modelled, and calls come with non-decreasing times.
- EgressRuns.CircuitBound: speaks of runs in which every retrieval ends in a recorded failure; a success resets the breaker, which is why no bound holds across one.
- ArchiveIndex.ScanLines: the identity text of a capture is modelled as a tuple and the table of provider digests as a set of pairs.
- Titles.TitleCollapses: about bodies whose bytes stay in place; for all others `TitleTags.ExtractsVisible` says what is returned. Lower-casing itself is a parameter, rune by rune.
- EnginePointers.ResolvePointer: value formatting and the ASCII transforms of the adapter and the engine are not modelled.
- AtlasState.ValidateRegistry: the checks of a record on identity, publisher, trust and capability text, and the binding to its policy, are parameters; so are family quotas.
- Metrics.CapabilityCounts.Add: only access classes and price states are counted.
- Metrics.CapabilityCounts.constructor: only access classes and price states are initialised.
- Metrics.BuildMetrics: country, language, family and authority counters and the other capability counters are not modelled.
- Frontier.BuildDryRunFrontier: times are whole nanoseconds and reasons are constructors; the check that the planning time is UTC and the text form of due times are not modelled.
- OntologyDiff.Diff: the final sort of the changes is not modelled, as compatibility does not depend on their order; an object is a kind and an ID rather than their joined text.
- JsonBounded.Check: the tokenizer is a parameter, and what follows validation (decoding into a Go value) is not modelled.
