# microconf: persistence, codec and field store

microconf keeps one C struct, described by a schema, in a caller-owned buffer and
saves it to two storage slots. This project models that library and its EEPROM
backend and proves what the two-slot protocol is for: a save is atomic at every
byte, over runs of any length.

How the model is laid out:

- `Wrappers`, `Words`, `Crc`, `Schema`, `Image`, `Payload`: optional values; bytes and
  exclusive or; the checksum; schema validation and fingerprint; the data image, its
  canonical and default forms; the writer's bytes and the reader's result on any bytes.
- `Misread`: what reading leaves behind when it stops early or is misled.
- `Division`, `CheckValue`, `Fingerprints`, `Format`, `Verdicts`: independent accounts of
  what the definitions above compute. The checksum is the remainder of a polynomial
  division and has its published check value; the hashed bytes, the stored bytes and
  the header tests are laid out number by number; and for every call, which requests
  are accepted and which error the others get, from the raw schema, data and storage.
- `Record`, `Save`: headers, probing, loading; the plan of a save, and the trace of
  single byte writes (erase upwards, program upwards, commit one byte) that
  carries it out. `Cut(.., k)` is storage after the first `k` of them.
- `Atomicity`, `Runs`, `Unheard`, `Damage`, `Foreign`, `Travel`, `Store`: the theorems;
  `Unheard` is about saves during which a header could not be read.
- `Eeprom`: a device that may run out of power after any byte write, store wrong
  bytes, or refuse reads, and the backend on top of it.
- `Codec`, `Context`: the loops and in-place stores of the library as methods of
  the context class, each proved against the specifications above. `LoopSteps` and
  `SaveSteps` hold the single steps of those proofs.
- `Examples`: concrete inputs on which the code does less than one may expect.

Conventions. A `Setup` is a schema together with what the build and the machine
decide (byte order, float support) and the fingerprint that `Context.Config.Init`
computed; theorems about records hold whatever that number is. A power cut and a write that fails half way are
the same thing to storage: a budget of byte writes. Statements about whole outcomes
are for a faithful device, on which a written byte is stored; statements about
success also cover devices that store something else. Single byte writes are atomic.
Sizes of devices, values and data buffers are at most 2^56, as memory objects are;
the offsets and sizes in a schema and in calls of the backend are arbitrary 64-bit
numbers whose sums wrap.

What turned out to differ from what one may expect:

- Save picks its slot by headers only. If the payload behind the newest header is
  damaged, save erases the only good record. `Damage.InterruptionSafeExactly` says
  exactly when interruption is harmless; `Examples.OlderRecordLost` is a witness.
- A text longer than 65535 bytes is cut in its length word. Save then never both
  succeeds and keeps the data; `Runs.SaveRoundTrip` is exact, and
  `Examples.LongTextExample` shows the data cleared by the failing save.
- With such a text save may even report success and store something else:
  `Runs.SaveSucceedsExactly` says exactly when a save succeeds and what it then
  stores, and in `Examples.LongTextMoves` a text ends up in two other fields.
- Such a text shifts what is read after it, so a failing save can leave valid data
  invalid. Only bools can break (`Runs.SaveBreaksBoolsOnly`), none does unless it
  comes after such a text (`Runs.SaveKeepsValid`), and one right after the first such
  text takes a character of it (`Runs.SaveBreaksBool`); `Examples.LongTextBreaksBool`
  is a witness.
- A header that cannot be read while save probes counts as an empty slot. Save may
  then overwrite the newest record (`Unheard.SparedExactly` says exactly when,
  `Examples.UnheardNewestLost` shows it), or report success for a record that load
  never returns (`Unheard.VisibleExactly` and `Examples.SuccessUnseen`).
- Bool defaults are not checked; `Image.DefaultsValidExactly` says when defaults are
  valid data, `Examples.BoolDefaultExample` shows a save refused right after them.
- docs/DESIGN.md:30 rules out NULs inside stored texts. The reader accepts them;
  `Foreign.ReencodesExactly` says what it accepts beyond what is written.
- Load never returns the checksum error, although src/mconf.c:1210 provides for it
  (`Record.LoadMeaning`).
- The EEPROM set-up accepts a region whose end wraps around (`Eeprom.Backend.Init`,
  `Examples.WrappingRegionAccepted`), and so do the bounds checks of the backend for
  offsets that the core never passes (`Eeprom.Backend.Write`). No slot of such a
  region can be erased, but trying destroys what follows its base
  (`Eeprom.WrappedRegionUnusable`).

## Model

| member | source | states |
|---|---|---|
| Runs.SaveIsAtomic | src/mconf.c:1222-1308 | Cut a save after any number of byte writes: load returns the canonical new image if and only if the commit byte was written, otherwise what it returned before. |
| Runs.RunsAreARegister | src/mconf.c:1163-1308 | From erased storage, after any run of complete, refused and interrupted saves of texts of any length, load returns what the encoding of the last attempt that got through reads as, judged from the attempts alone, or the defaults. |
| Runs.RegisterIsCanonical | src/mconf.c:1163-1308 | With texts of at most 65535 that is the canonical image of the data, and an attempt gets through exactly if its data is valid and known, fits the slot and the length word, and power lasts. |
| Verdicts.NothingSavedReport | src/mconf.c:1209-1219 | Until the first attempt of a run from erased storage gets through, load reports missing magic and leaves the defaults. |
| Runs.SaveSucceedsExactly | src/mconf.c:1292-1307 | Given power, a save succeeds exactly if reading its own encoding, as long as the header says, consumes it with valid content and the same checksum; the data is then what that reading yields. Storage does not matter. |
| Runs.RunsAreLinear | src/mconf.c:1163-1308 | The same for any start that reflects its history and texts of any length: load answers with the data the last successful save left, and storage keeps reflecting its history. |
| Runs.RunsFromAnyStart | src/mconf.c:1163-1308 | From any storage whose newest record decodes, whatever the generations in it, load answers after any run with the data of the last successful save, or as at the start; the newest record decodes throughout. |
| Runs.RegisterFromAnyStart | src/mconf.c:1163-1308 | On such storage load's answer after a run is told from the attempts and the first answer alone. |
| Runs.StepReflects | src/mconf.c:1255-1307 | The run invariant survives every save, whatever its data and wherever it stops: the newest header belongs to the last completed save and decodes to its data; the other slot, if committed, decodes and belongs to the save before. |
| Runs.GenerationsInOrder | src/mconf.c:1257-1274 | In every such state each committed slot decodes, no committed generation is 0, the newest generation counts the completed saves modulo 2^32 - 1, and of two committed slots the one preferred carries the successor of the other's generation. |
| Atomicity.SuccessorIsNewer | src/mconf.c:1158-1161 | The signed difference recognizes the successor that skips 0 as later, and never the reverse, across the wrap. |
| Runs.SaveOutcome | src/mconf.c:1222-1308 | A save stops at one byte of its trace; it reports success exactly if that is the end, then its data is what read-back produced, and before read-back the data is untouched. |
| Verdicts.SaveRefusedExactly | src/mconf.c:1240-1253 | When a save goes ahead, and what it reports when not, in the order the reasons are checked; then it changes nothing. |
| Verdicts.SaveVerdict | src/mconf.c:1281-1307 | A save that goes ahead succeeds exactly if power lasts and the encoding reads itself; without power it reports an I/O error. |
| Runs.SaveRoundTrip | src/mconf.c:1222-1308 | With power enough a save succeeds and leaves the canonical image exactly if all texts are at most 65535 long and the payload length fits 32 bits; whenever it succeeds, load returns its data. |
| Runs.SaveKeepsData | src/mconf.c:1292-1303 | With short texts a save leaves the caller's data as it was or canonical, whatever its outcome. |
| Runs.SaveKeepsValid | src/mconf.c:1292-1303 | Valid data in which no bool comes after a text longer than 65535 stays valid, whatever the save's outcome. |
| Runs.SaveBreaksBoolsOnly | src/mconf.c:1096-1141 | Whatever the texts, data a save left is valid if and only if its bools are 0 or 1. |
| Runs.SaveBreaksBool | src/mconf.c:1096-1141 | A bool right after the first text longer than 65535 holds, after a save that programmed everything, the character of that text at its length modulo 65536; the data is invalid unless that is 1, and if no further bool follows, valid exactly if it is 1. |
| Misread.OthersStayValid | src/mconf.c:1081-1141 | Whatever bytes are read and wherever reading stops, every field but a bool is valid. |
| Misread.ReadsBackValid | src/mconf.c:1081-1141 | The encoding of valid data whose bools come before every text longer than 65535 reads back as valid data after every field. |
| Misread.PartlyReadValid | src/mconf.c:1097-1114 | The same when a read fails in the middle of a field. |
| Atomicity.CommitTakesEffect | src/mconf.c:1292-1307 | Verify before commit: whatever bytes ended up in the target slot, if the header matches and the slot reads back, the commit byte makes exactly the image read back the one load returns. |
| Atomicity.InterruptedSaveInvisible | src/mconf.c:1281-1299 | Before the commit a save changes neither load's image nor its success nor the slot preferred. |
| Atomicity.CommittedSaveVisible | src/mconf.c:1303-1307 | After the commit load returns the read-back image, the new slot is preferred with the next generation, and the other slot is untouched. |
| Atomicity.TornState | src/mconf.c:1281-1299 | After the first write and before the commit the target slot is not committed and the other slot is as before. |
| Atomicity.PreferredUntouched | src/mconf.c:1257-1303 | At every byte of a save, the commit included, the slot load tries first holds the bytes it held and decodes to what it did. |
| Unheard.SparedExactly | src/mconf.c:1255-1271 | Whatever the two probes could read, save overwrites the newest record exactly when its header was not heard and either the other one was, or neither and it is in slot 0. |
| Unheard.HeardAll | src/mconf.c:1255-1274 | A save that heard both headers writes the specified trace. |
| Unheard.TornAnswer | src/mconf.c:1281-1299 | From the first write of such a save to its commit, load returns the record in the slot not written if it decodes, and the defaults otherwise. |
| Unheard.VisibleExactly | src/mconf.c:1255-1307 | After the commit of such a save load returns the record read back, except exactly when neither header was heard and slot 1 holds a record that decodes and whose generation is 2 to 2^31: then it keeps returning that one. |
| Unheard.LandedAnswer | src/mconf.c:1255-1307 | With short texts and a faithful device the record reads back and is committed in each case, the hidden one included. |
| Save.TornNotCommitted | src/mconf.c:1281-1299 | At every cut point strictly inside the trace the slot being written fails the probe. |
| Save.TornErase | zephyr/src/mconf_zephyr_eeprom.c:61-90 | However far an ascending erase of a slot got, it changed nothing or the slot no longer probes as committed. |
| Save.SlotFrame | src/mconf.c:1064-1156 | A slot that decodes keeps decoding to the same image as long as its own bytes stay. |
| Damage.DamageRejected | src/mconf.c:1143-1148 | Damage within four consecutive payload bytes makes a committed slot undecodable, even if it hits a text length and shifts the parse. |
| Damage.DamagedNewestFallsBack | src/mconf.c:1186-1199 | With both records good and the newer payload so damaged, load returns exactly the older record. |
| Damage.InterruptionSafeExactly | src/mconf.c:1255-1283 | When load can return a record, every interruption of a save leaves load's answer alone if and only if the slot with the newest header decodes. |
| Damage.DamageThenSaveLoses | src/mconf.c:1255-1283 | A damaged newest record plus a single written byte of a further save leaves nothing to load, although the older record was still there. |
| Examples.OlderRecordLost | src/mconf.c:1255-1283 | A concrete storage on which that happens. |
| Examples.LongTextExample | src/mconf.c:967 | A concrete text of 65536 bytes that passes all checks, after which save fails and the data buffer is zero. |
| Examples.LongTextBreaksBool | src/mconf.c:967 | The same text in front of a bool: save fails and leaves the bool 97, so the data is invalid. |
| Examples.LongTextMoves | src/mconf.c:967 | A text of 65536 bytes and two empty ones: save and load succeed, the text is gone and the other two hold 32896 and 32636 bytes of it. |
| Examples.UnheardNewestLost | src/mconf.c:1255-1283 | Two good records; a save that cannot read the newer header destroys it with its first byte. |
| Examples.SuccessUnseen | src/mconf.c:1255-1307 | Two saves and an interrupted third; a save that cannot read the header left reads back and commits 9, and load returns 8. |
| Examples.WrappingRegionAccepted | zephyr/src/mconf_zephyr_eeprom.c:125-134 | On every device of more than 100 bytes a region of 2^64 - 64 bytes at address 100 passes every check. |
| Examples.BoolDefaultExample | src/mconf.c:216-238 | A concrete validated schema whose defaults are invalid and cannot be saved. |
| Examples.EmbeddedNulExample | src/mconf.c:1097-1114 | A committed record, header and checksum included, with a NUL in a text: load succeeds with an image that would be written differently. |
| Crc.BurstDetected | src/mconf.c:81-111 | Two different strings of equal length that differ only within four consecutive bytes have different checksums. |
| Crc.StepsLinear | src/mconf.c:81-93 | The bit steps of the register commute with exclusive or. |
| Crc.StepsInjective | src/mconf.c:81-93 | The bit steps of the register lose nothing. |
| Crc.FoldNumber | src/mconf.c:81-93 | Bytes fed one at a time act like the little-endian number they hold, if below 2^32, entered at the start. |
| Crc.UpdateByte | src/mconf.c:81-93 | The eight-step loop computes the specified register. |
| Crc.ComputeCrc32 | src/mconf.c:100-111 | The byte loop computes the checksum of the whole string. |
| Division.ChecksumIsRemainder | src/mconf.c:81-111 | The checksum's bits are the complement of the remainder, by long division by x^32 + x^26 + ... + 1, of the message followed by 32 zeros with its first 32 coefficients complemented. |
| Division.ChecksumFromBits | src/mconf.c:100-111 | These 32 bits determine the checksum. |
| CheckValue.CheckValue | src/mconf.c:100-111 | The checksum of "123456789" is 0xCBF43926. |
| CheckValue.Residue | src/mconf.c:81-111 | Every message followed by its checksum, low byte first, leaves the register at 0xDEBB20E3. |
| Schema.SchemaValidate | src/mconf.c:446-482 | Validation succeeds exactly for well-formed schemas (own rules, inside the data, pairwise disjoint, no shared key) and then returns the hash of the specified stream. |
| Schema.ChecksAreExact | src/mconf.c:358-406 | The checks made, with sums that wrap and ends of entries not yet validated, accept exactly the well-formed schemas. |
| Verdicts.SchemaAccepted | src/mconf.c:216-238 | A schema is well formed exactly if it has 1 to 64 entries and some data, every entry keeps the rules of its type code, key and default, and no two entries share a byte or a key. |
| Format.TypeTable | src/mconf.c:175-197 | What each type code is, and the size it imposes. |
| Schema.ValidateEntryLayout | src/mconf.c:358-406 | One entry's checks, including the pairwise loop over later entries, pass exactly if its own rules hold and no later entry clashes under wrapping ends. |
| Schema.FingerprintSensitive | src/mconf.c:113-135 | Schemas whose hashed streams have equal length and differ in exactly one byte have different fingerprints. |
| Schema.MixInjective | src/mconf.c:113-116 | The mix step is injective in the hash and in the byte. |
| Schema.TypeChangeDetected | src/mconf.c:458-475 | Giving one entry another type changes the fingerprint. |
| Schema.RenameDetected | src/mconf.c:458-475 | Renaming one entry in one character to any other but NUL changes the fingerprint. |
| Schema.DefaultsNotFingerprinted | src/mconf.c:458-475 | Changing an entry's default value never changes the fingerprint. |
| Fingerprints.EntryLayout | src/mconf.c:468-475 | An entry contributes its offset, size and type as 64-bit numbers, low byte first, and its key, or one zero if it has none. |
| Fingerprints.PreludeLayout | src/mconf.c:458-460 | In front stand the number of entries, the data size and the version. |
| Fingerprints.EntriesLayout | src/mconf.c:462-475 | The entries follow one after the other in schema order. |
| Fingerprints.StreamDetermines | src/mconf.c:458-475 | Schemas with the same keys and the same hashed stream agree in number of entries, data size, version, and every offset, size and type. |
| Fingerprints.MoveDetected | src/mconf.c:468 | Changing one byte of one entry's offset changes the fingerprint. |
| Fingerprints.ResizeDetected | src/mconf.c:469 | Changing one byte of one entry's size changes the fingerprint. |
| Fingerprints.DataSizeDetected | src/mconf.c:459 | Changing one byte of the data size changes the fingerprint. |
| Fingerprints.VersionDetected | src/mconf.c:460 | Changing one byte of the version changes the fingerprint. |
| Fingerprints.HashOfA | src/mconf.c:113-126 | The hash of the text "a" is 0xE40C292C, that of FNV-1a. |
| Image.CanonMeaning | src/mconf.c:1081-1114 | The canonical image keeps every field value and validity, is zero after texts and in padding, and is its own canonical image. |
| Image.ImageDetermined | src/mconf.c:1081-1141 | Fields and a zero background determine an image. |
| Image.DefaultsMeaning | src/mconf.c:545-563 | The default image shows every default and is zero elsewhere. |
| Verdicts.DefaultsFromPresets | src/mconf.c:340-356 | Every field of the default image begins with the default value and is zero after it, or zero where there is none; a text ends where its default does, or before. |
| Verdicts.ResetFromPreset | src/mconf.c:565-573 | So does a field after its reset, and the others stay. |
| Verdicts.CanonExactly | src/mconf.c:1097-1114 | The canonical image keeps a text up to its end and has zeros after it, and keeps any other field. |
| Image.DefaultsValidExactly | src/mconf.c:216-238 | The default image is valid data if and only if bool defaults are 0 or 1 and float fields are supported. |
| Image.StoreFrame | src/mconf.c:393-403 | A store into one field shows in that field and in no other. |
| Payload.ReadsBack | src/mconf.c:1083-1141 | Reading an encoding, wherever it lies and whatever follows, consumes exactly the encoding and gives the canonical image. |
| Payload.PrefixFree | src/mconf.c:952-1000 | No encoding is a proper prefix of another, and equal encodings mean equal canonical images. |
| Payload.ReadRelocates | src/mconf.c:1064-1141 | What the reader accepts depends only on the bytes it consumed, not on where they lie or what surrounds them. |
| Payload.LongTextLost | src/mconf.c:1084-1097 | Whatever the reader accepts, it is never an image with a text beyond 65535. |
| Format.FieldFormat | src/mconf.c:260-293 | A scalar is stored as its number on the machine, low byte first; a text as the low 16 bits of its length and its characters; a blob as it is. |
| Format.PayloadFormat | src/mconf.c:952-1000 | Fields follow in schema order with nothing between them. |
| Verdicts.ReadVerdict | src/mconf.c:1083-1141 | Which error ends the reading of each kind of field, and how far a successful read advances. |
| Foreign.ReencodesExactly | src/mconf.c:1097-1114 | Writing an accepted image again gives the bytes that were read if and only if no text was stored with a NUL inside. |
| Travel.SlotTravels | src/mconf.c:1064-1156 | A slot decodes on one machine exactly if it does on one of any other byte order, header, checksum and validity included, and then to the same canonical scalar bytes, texts and blobs. |
| Travel.StorageTravels | src/mconf.c:1163-1220 | Load reports the same on both machines for any storage, and on success returns the same content. |
| Travel.RecordTravels | src/mconf.c:260-338 | What one machine saved successfully the other loads, with the same content. |
| Record.HeaderRoundTrip | src/mconf.c:1002-1021 | Decoding inverts encoding for every header. |
| Format.RecordFormat | src/mconf.c:907-928 | Each number of a programmed header, by its position: magic, format, size, version, fingerprint, entries, state 0x3C, payload length, generation, checksum; then the payload. |
| Format.TraceFormat | src/mconf.c:1281-1307 | A save leaves 0xFF in the whole slot, then the record, then 0xA5 at byte 18. |
| Format.ProbeExactly | src/mconf.c:1023-1062 | A header is found exactly if each of these numbers is as required, and the first that is not decides the error. |
| Format.NewerExactly | src/mconf.c:1158-1161 | A generation is later exactly if it is 1 to 2^31 - 1 steps ahead on the 32-bit circle. |
| Verdicts.NewestExactly | src/mconf.c:1183-1199 | Of two found headers that of slot 1 is newest exactly if its generation is later. |
| Verdicts.NextExactly | src/mconf.c:1257-1274 | A save goes to the other slot with the generation after; the first to slot 0 with generation 1. |
| Verdicts.SlotVerdict | src/mconf.c:1143-1155 | Why a payload behind a good header is refused: the reading, its length, the checksum, or invalid data. |
| Record.LoadedIsValid | src/mconf.c:1149-1151 | Whatever a slot holds, an image loaded from it is valid data. |
| Record.LoadMeaning | src/mconf.c:1163-1220 | What load leaves depends on schema and storage only; it succeeds exactly if a slot decodes and then returns such a slot's image, else the defaults; it never reports the checksum error. |
| Verdicts.LoadReport | src/mconf.c:1209-1219 | When no slot decodes, load leaves the defaults and reports another version exactly if some committed header of this format is of one, else missing magic exactly if some slot lacks it, else invalid storage. |
| Verdicts.ErasedReport | src/mconf.c:1216-1217 | Load from erased storage reports missing magic. |
| Verdicts.LoadRefused | src/mconf.c:1179-1181 | Slots too small for a header or too large for the storage are refused and nothing changes. |
| Record.OtherFingerprint | src/mconf.c:1048-1050 | A slot committed under one schema is a version mismatch under every schema of another fingerprint. |
| Record.OtherSchemaStartsAfresh | src/mconf.c:1209-1219 | When only records of another fingerprint are found, load reports the version error and leaves the defaults. |
| Record.RetypedFieldDisowns | src/mconf.c:458-475 | After one field was given another type, even of the same size, no record saved before decodes. |
| Verdicts.ResizedFieldDisowns | src/mconf.c:469 | The same after one byte of a field's size was changed. |
| Verdicts.MovedFieldDisowns | src/mconf.c:468 | The same after one byte of a field's offset was changed. |
| Record.PreferredAnswers | src/mconf.c:1183-1209 | When the slot with the newest header decodes, load returns it. |
| Store.SetThenGet | src/mconf.c:624-650 | An accepted value reads back, texts end where the value ended, and no other field changes. |
| Verdicts.SetExactly | src/mconf.c:624-650 | A value is accepted exactly if the field exists and the value is a text that fits and has no NUL, or has the field's size and, for a bool, is 0 or 1; each error has its own condition. |
| Verdicts.TypedSetExactly | src/mconf.c:672-697 | The typed setter agrees, given the type code and float support. |
| Verdicts.TextSetExactly | src/mconf.c:801-833 | The text setter agrees for texts and refuses other types. |
| Verdicts.BlobSetExactly | src/mconf.c:747-766 | The blob setter agrees for blobs and refuses other types. |
| Verdicts.StoredExactly | src/mconf.c:645-649 | What may be stored is accepted, begins the field, and is followed by zeros. |
| Verdicts.GetThenSet | src/mconf.c:610-650 | On valid data what a getter hands out is accepted back and leaves the canonical field. |
| Store.ResetsInAnyOrder | src/mconf.c:565-573 | Resetting fields in any order, repeated or not, gives exactly those fields their defaults. |
| Store.CallKeepsValid | src/mconf.c:484-515 | Every setter, reset, load or save, accepted or refused, keeps valid data valid, provided resets and loads have defaults whose bools are 0 or 1 and supported floats, and a save meets no bool after a text longer than 65535. |
| Store.UseKeepsValid | src/mconf.c:484-515 | From such defaults on, data stays valid over any sequence of calls in which no save meets a bool after a text longer than 65535. |
| Store.ShortTextsKeepValid | src/mconf.c:484-515 | So it does if every text is at most 65535 long whenever data is saved. |
| Store.SchemaKeepsValid | src/mconf.c:484-515 | If no bool comes after a text field larger than 65536, it stays valid over any sequence of calls at all. |
| Eeprom.Backend.Erase | zephyr/src/mconf_zephyr_eeprom.c:61-90 | The chunk loop ends, fills exactly the range with 0xFF on success, and otherwise has reached exactly the prefix that power and, for an address that wraps or a region beyond the device, the device allow; nothing else changes. |
| Eeprom.Backend.Write | zephyr/src/mconf_zephyr_eeprom.c:39-59 | What fails the check of the backend, a sum that wraps, or of the device changes nothing; otherwise a prefix as long as power allowed is written at the address, which wraps too, and success means all of it. |
| Eeprom.Backend.Read | zephyr/src/mconf_zephyr_eeprom.c:17-37 | Success delivers the bytes at the address, failure changes nothing, and what passes both checks a steady device reads. |
| Eeprom.Backend.Init | zephyr/src/mconf_zephyr_eeprom.c:92-151 | The geometries accepted, two usable equal slots, and the region lies inside the device exactly if its end does not wrap. |
| Verdicts.RegionExactly | zephyr/src/mconf_zephyr_eeprom.c:115-134 | Which regions are accepted: even, at least 64 bytes, and ending within the device, its last byte included, or wrapping to there. |
| Eeprom.WrappedRegionUnusable | zephyr/src/mconf_zephyr_eeprom.c:61-90 | In a region accepted although its end wraps, erasing the first slot fails after filling the device from the base to within a chunk of its end, and erasing the second fails at once. |
| Eeprom.WroteBoth | zephyr/src/mconf_zephyr_eeprom.c:74-87 | Consecutive writes, the last of which may stop anywhere, amount to one write that stops there. |
| Codec.ValidateStringBytes | src/mconf.c:199-214 | Finds the first NUL, or reports that there is none. |
| Codec.EncodeFieldBytes | src/mconf.c:260-293 | Gives the canonical bytes through the machine's own value, or the type's error. |
| Codec.DecodeFieldBytes | src/mconf.c:295-338 | Gives the field's bytes on this machine, or the size, type or support error. |
| Codec.NativeIsWire | src/mconf.c:54-79 | Passing through the machine's value yields the canonical byte order, and back, on either byte order. |
| Codec.EncodeHeader | src/mconf.c:907-928 | The stores into the cleared buffer leave exactly the header's bytes. |
| Codec.ParseHeader | src/mconf.c:1002-1021 | Decodes the header buffer or reports why not. |
| Context.Config.Init | src/mconf.c:517-543 | Binds a buffer, with the schema's fingerprint, exactly if its size matches and the schema is well formed, without touching it. |
| Context.Config.ValidateData | src/mconf.c:484-515 | Returns the first complaint, and none exactly if every field is valid. |
| Verdicts.DataVerdict | src/mconf.c:484-515 | Data is valid exactly if bools are 0 or 1, texts hold a NUL and floats are supported; otherwise the first bad field decides the error. |
| Context.Config.RestoreDefaults | src/mconf.c:545-563 | Leaves the default image. |
| Context.Config.ResetToDefault | src/mconf.c:565-573 | Stores one field's default, or reports a missing index and changes nothing. |
| Context.Config.Find | src/mconf.c:575-599 | Returns the only entry with that key, or that there is none. |
| Context.Config.Get | src/mconf.c:610-622 | Copies exactly the field out if index and size fit, else nothing. |
| Context.Config.GetScalar | src/mconf.c:652-670 | The typed form, with type, support and size errors in the order they are checked. |
| Context.Config.GetBool | src/mconf.c:699-711 | Hands out a bool only if its byte is 0 or 1. |
| Context.Config.GetString | src/mconf.c:768-799 | The text with its NUL if there is room, and the room needed in any case. |
| Context.Config.Set | src/mconf.c:624-650 | Stores an accepted value, padded if a text; a refused one changes nothing. |
| Context.Config.SetScalar | src/mconf.c:672-697 | The typed form, with its errors in the order they are checked. |
| Context.Config.SetBlob | src/mconf.c:747-766 | The blob form. |
| Context.Config.SetString | src/mconf.c:801-833 | Clears and stores a text without NULs that fits, and reports the capacity required. |
| Context.Config.ComputePayloadLayout | src/mconf.c:849-905 | Measuring agrees with the encoding in length and checksum, and its overflow check never fires; otherwise the first complaint, then unknown types. |
| Context.Config.SerializePayload | src/mconf.c:952-1000 | The field-by-field writes tile one contiguous range with exactly the encoding, up to where power ended. |
| Context.Config.ProbeSlotHeader | src/mconf.c:1023-1062 | Agrees with the specified probe whenever the header could be read; success is genuine on any device. |
| Context.Config.LoadSlotIntoBuffer | src/mconf.c:1064-1156 | The streaming reader agrees with the specified decoding of the slot, checksum over exactly the bytes consumed; success is genuine on any device; after any failure the buffer is as before, or holds the fields before the one that failed and that one untouched or cleared. |
| Context.Config.LoadFromStorage | src/mconf.c:1163-1220 | The specified outcome on a device that reads reliably; on any device success is the content of a slot and failure leaves the defaults. |
| Context.Config.ChooseTarget | src/mconf.c:1255-1274 | Slot and generation follow from the two headers, with an I/O error in place of one that could not be read. |
| Context.Config.VerifyRecord | src/mconf.c:1292-1301 | Unless the header in storage is the one written, the data is left alone; success means that the slot reads back to the data. |
| Context.Config.SaveToStorage | src/mconf.c:1222-1308 | Refusals change nothing. Otherwise, on any device and whatever the probes said, only the slot that follows from them changes, success means that every byte write of the record and its commit was performed, and the data is unchanged until all but the commit is written; on a faithful device storage is that prefix of the writes, and valid data without a bool after a text longer than 65535 stays valid even if reads fail. On any device, once the commit byte is in place after a success, load returns the data now in the buffer, or in the one case of `Unheard.VisibleExactly` the older record. With steady probes the slot is the one not preferred, and with reliable reads the whole outcome is the specified one. |

## Left out

- Context.Config.SaveToStorage, and every other call on storage: for a region set up although its end wraps only the backend itself is modelled.
- Record.Geometry: slots of 2^63 bytes and more, whose double wraps so that the size check passes them.
- Context.Config.LoadSlotIntoBuffer: a read that fails delivers nothing in the model, while a backend may deliver a part.
- Context.Config.Find: names are enabled; the build without names, which always answers unsupported, is not modelled.
- Schema.SchemaValidate: the limits are those of the default configuration, 64 entries and keys of 48 characters.
- Null arguments, the uninitialized context and the context size check.
- Pointer aliasing between a value and the data buffer, and misaligned access; buffers are distinct arrays.
- Float arithmetic: a float field is four opaque bytes with a flag for support.
- Concurrent use of one context or one backend.
- Torn single bytes, bits that drift while unpowered, and reads that differ from one time to the next.
- NOR flash: programming that only clears bits, write alignment, and the flash map backend.
- The bool and fixed-width wrappers beyond the generic typed pair, the blob getter, error and type names.
- Device readiness, logging, the shell, build configuration and samples.
