# ARO components, modelled and verified in Dafny

ARO runs Android applications on a Linux desktop. This project models the parts of it whose correctness
is a matter of layout, arithmetic, parsing or protocol, and proves what each of them is for:

- **Property area** (`Bytes`, `Names`, `Records`, `Trie`, `Growth`, `PropArea`, `Sums`, `PropertiesDir`): the byte arena in
  which bionic finds the system properties. A trie on dot-separated segments, each level a binary search
  tree, all links 32-bit offsets. The class `PropArea` grows and patches the bytes as the Rust code does;
  its invariant says which records the bytes hold, that they form a trie, and that a reader of the raw
  bytes finds exactly the properties added so far.
- **Parcels and intents** (`Unicode`, `Parcel`, `Intents`, `IntentParcel`): the word-by-word writer and
  reader of an Intent, against an encoding and a decoding function, and the exact set of targets that
  survive the trip.
- **Binary XML** (`Axml`, `AxmlParser`, `AxmlTree`): the chunk parser with its element stack, against an
  encoder of any element tree.
- **Cursor windows** (`CursorWindow`), **sparse images** (`SparseImage`), **the compositor's pixel passes**
  (`Compositor`): loops over buffers, each equal to a plain denotation.
- **Protocols**: the location helper (`LocationProtocol`, all interleavings of client, helper and workers
  over two channels) and its consent logic (`Consent`, a trace of every backend call), the notification
  shade and the widget that reads it (`Shade`, `ShadePanel`, `Picks`), the service manager's reservations (`Hub`), the keyboard (`Keyboard`).
- **Small languages**: the seccomp filter against a classic BPF interpreter and the kernel's check of a
  filter (`Seccomp`), the media provider's SQL selections (`MediaSelection`, `SqlText`, `SelectionMeaning`), the two escaping layers of a
  desktop entry's `Exec` line (`DesktopArg`).

Code that updates state is modelled by classes and methods with loops; each method is proved equal to a
function of its inputs or its old state, and the lemmas are about those functions. `dafny verify
dfyconfig.toml` checks everything.

## Findings

Properties a reader would expect and that the code does not have on every input; in each case the model
keeps the code as it is and the exact condition is proved.

- A property value that contains a NUL is read back only up to it (`Records.UpToNulIsIdentity`): the value
  read equals the value added if and only if it is free of NULs.
- `to_intent` drops a class that has no package, and the writer cuts or pads the extras' bytes to their
  declared length: `Intents.InverseIff` gives the exact set of targets that come back unchanged.
- A media selection drops every condition whose operand it cannot use, where SQL would be satisfied by no
  row: text that is no number, a number beyond the column's width, a missing argument. It also drops
  conditions on columns its filter does not know, and ranges on any column but `_id`.
  `SelectionMeaning.EnforcedIff` gives the exact condition on the operands of one condition,
  `AgreesIffEnforced` on those of a whole conjunction, and there is a lemma at an input for each kind
  (`OverWideExample`, `NotANumberExample`, `MissingArgumentExample`, `BeyondRangeExample`,
  `OtherRangeExample`, `OtherColumnExample`).
- In a media selection, `BETWEEN` on a column other than `_id` skips its operands without taking
  arguments for their placeholders, so every later `?` is shifted (`MisalignedExample`).
  `AlignedIff` says when a condition gets its own arguments, `AgreesIffAligned` when the rows accepted are
  right for all arguments.
- A field that is restricted twice keeps the last restriction only (`SetTwiceExample`). Two equations agree
  with SQL exactly when they name the same number (`RepeatedEqIff`), two ranges exactly when the later one
  is empty or lies within the earlier one (`RepeatedRangeIff`).
- `Hub::remove_process` retires a reservation by making 0 its owner. A removed process gets a name reserved
  for it back if and only if it is process 0 (`ServiceHub.LateRegistration`), and a name reserved while
  free can come to be held by its owner and by process 0 and by nobody else, without a removal of the
  owner by the owner alone (`HoldersIff`).
- The slot of a cursor window names the place of its string if and only if place and size fit 32 bits
  (`CursorWindow.SlotNamesIff`); behind a string of 4 GiB the next one is lost (`OutOfReachExample`).
- A sparse image whose chunks do not add up to its declared size is cut or zero-extended silently; its
  size is that of the header if and only if they add up (`SparseImage.ImageMeans`).
- The length of the seccomp program is cast to a u16. This can never install a truncated filter: the kernel
  refuses every odd-length prefix of the program, and so `install` loads the whole program or none
  (`Seccomp.CutIsRefused`, `Install`).

## Model

| member | source | states |
|---|---|---|
| Names.JoinOfSplit | crates/aro-props/src/lib.rs:140 | joining the dot-separated segments of a name gives the name back |
| Names.SplitInjective | crates/aro-props/src/lib.rs:140 | two names with the same segments are the same name, so distinct keys never collide in the trie |
| Names.LessTrans | crates/aro-props/src/lib.rs:99-101 | the (length, then bytes) order is transitive |
| Names.LessIrreflexive | crates/aro-props/src/lib.rs:99-101 | no segment is less than itself |
| Names.LessTotal | crates/aro-props/src/lib.rs:99-101 | of two different segments one is less, so every search step is decided |
| Names.LessIff | crates/aro-props/src/lib.rs:99-101 | a shorter segment comes before a longer one, and of two of one length the first byte that differs decides |
| Records.BtFields | crates/aro-props/src/lib.rs:30-30 | the name length, the four links at 4, 8, 12 and 16 and the name at 20 of a trie node read back from its bytes |
| Records.ReadShort | crates/aro-props/src/lib.rs:92-95 | a reader of an in-line property finds its name, the length of its value in the serial, and the value up to its first NUL |
| Records.ReadLong | crates/aro-props/src/lib.rs:83-91 | a reader of a long property finds its name, in line the text for readers that know no long values and the length of that text, and through the relative offset the value up to its first NUL |
| Records.UpToNulIsIdentity | crates/aro-props/src/lib.rs:93-94 | what is read equals what was stored if and only if the value holds no NUL |
| Bytes.LittleEndian | crates/aro-props/src/lib.rs:55-60 | the words of every layout have their least significant byte first |
| Bytes.LittleEndian64 | crates/arod/src/services/cursor.rs:87-91 | so have the 64-bit words of numbers |
| Records.HoldsPut | crates/aro-props/src/lib.rs:58-60 | patching one link word changes that link of that record and no other record |
| Records.HoldsAppend | crates/aro-props/src/lib.rs:63-71 | an appended record is 4-aligned, in range and disjoint from all records before it |
| Trie.LinkIs | crates/aro-props/src/lib.rs:109-135 | every non-zero sibling or child link of a well-formed arena leads to a node at a strictly larger offset, so 0 is a safe null |
| Trie.FindSound | crates/aro-props/src/lib.rs:109-135 | the search of a sibling tree returns only a node of the name searched for, in its place of the trie |
| Trie.WalkSound | crates/aro-props/src/lib.rs:140-153 | walking segments from a node ends at the node of exactly that path |
| Trie.WalkComplete | crates/aro-props/src/lib.rs:140-153 | every node of the arena is found by walking its path from the root |
| Trie.PathsDistinct | crates/aro-props/src/lib.rs:109-153 | no two nodes have the same path |
| Trie.NoSharing | crates/aro-props/src/lib.rs:109-153 | two links that lead to the same node are the same link |
| Trie.SiblingsSorted | crates/aro-props/src/lib.rs:12-17 | an in-order walk of every sibling tree lists its names strictly increasing, shorter names first, names of one length by the first byte that differs |
| Trie.FindIffListed | crates/aro-props/src/lib.rs:109-135 | the search succeeds for exactly the names an in-order walk of the tree meets |
| Growth.FindGrows | crates/aro-props/src/lib.rs:117-120 | hanging new nodes changes no search that succeeded; a new result is a new node |
| Growth.WalkGrows | crates/aro-props/src/lib.rs:140-153 | the same for walks of whole names |
| Growth.GetGrows | crates/aro-props/src/lib.rs:138-160 | creating nodes and orphaned records, as a failing `add` does, changes no lookup |
| Growth.GetIs | crates/aro-props/src/lib.rs:138-160 | a lookup in the raw bytes is a walk of the records and the value of the property there |
| Growth.HangWf | crates/aro-props/src/lib.rs:117-120 | appending a node and linking it keeps the trie well-formed |
| Growth.AttachWf | crates/aro-props/src/lib.rs:157-158 | linking a property record to its node keeps the trie well-formed |
| Growth.GetAttach | crates/aro-props/src/lib.rs:157-158 | attaching a property changes the lookup of its own name and of no other |
| PropertyArea.PropArea.constructor | crates/aro-props/src/lib.rs:49-53 | a new area is well-formed and every lookup in it fails |
| PropertyArea.PropArea.Alloc | crates/aro-props/src/lib.rs:63-71 | allocation appends zeroed, aligned space, or fails and changes nothing, exactly when the capacity would be exceeded |
| PropertyArea.PropArea.NewBt | crates/aro-props/src/lib.rs:73-78 | appends the whole record of an unlinked node |
| PropertyArea.PropArea.NewInfo | crates/aro-props/src/lib.rs:80-97 | appends the whole record of a short or long property; a failing long one may leave an unlinked empty record |
| PropertyArea.PropArea.FindBt | crates/aro-props/src/lib.rs:109-135 | returns the node of the segment when it is there and changes nothing, otherwise creates it in its place; fails exactly when it does not fit, leaving the area as it was |
| PropertyArea.PropArea.Descend | crates/aro-props/src/lib.rs:144-152 | one round of the loop over segments: the child of that name, created when missing |
| PropertyArea.AddCostIs | crates/aro-props/src/lib.rs:138-160 | the bytes an add needs are those of the nodes of the name's beginnings that are not in the trie yet, and of its record |
| PropertyArea.PropArea.Add | crates/aro-props/src/lib.rs:138-160 | succeeds exactly when no segment is empty, the name is new and the bytes it needs fit; then the lookup map gains the name; on any failure, even half way, the lookup map is unchanged; Duplicate exactly for a known name; the trie gains the nodes of the name's beginnings and no other |
| PropertyArea.PropertyAdded | crates/aro-props/src/lib.rs:157-158 | after the property is linked, its name reads as its value and every other lookup is as before |
| PropertyArea.StepCost | crates/aro-props/src/lib.rs:140-153 | the bytes still needed for the rest of a path, as the loop walks down it |
| PropertyArea.KnownPath | crates/aro-props/src/lib.rs:154-156 | a name with a value already has all its nodes, so its duplicate error costs no space |
| PropertyArea.MappedLookups | crates/aro-props/src/lib.rs:163-170 | the zeros behind the arena in the mapped file change no lookup |
| PropertyArea.PropArea.ToBytes | crates/aro-props/src/lib.rs:163-170 | the file of 131072 bytes has its header words, the whole arena at 128 and zeros, and reading it finds exactly the properties added, each with its name, length and value |
| PropertiesDir.LastWinsIs | crates/aro-props/src/lib.rs:240 | the merged value of a key is the one given last in the input |
| PropertiesDir.UpdateEntry | crates/aro-props/src/lib.rs:245-246 | overwriting an entry in place is an update of the map |
| PropertiesDir.Merge | crates/aro-props/src/lib.rs:243-250 | the merged list has distinct keys and stands for the last-wins map of the input |
| PropertiesDir.NeedAdd | crates/aro-props/src/lib.rs:251-254 | the size of an area is that of the root, of each distinct beginning of a name once and of each property once, in whatever order they are added |
| PropertiesDir.WritePropertiesDir | crates/aro-props/src/lib.rs:241-265 | succeeds exactly when no name has an empty segment and the size of the last-wins map fits 128 KiB less the header; then reading the file finds for every name the value given last, and the count returned is the number of distinct keys; the duplicate error never occurs |
| Unicode.Utf8RoundTrip | crates/arod/src/aparcel.rs:40 | decoding the UTF-8 of any string gives the string |
| Unicode.Utf8Iff | crates/arod/src/aparcel.rs:40 | bytes decode to a string exactly when they are its UTF-8 |
| Unicode.Utf8Examples | crates/arod/src/aparcel.rs:40 | the UTF-8 of one character of each length |
| Unicode.Utf16RoundTrip | crates/arod/src/bundle.rs:77-78 | decoding the UTF-16 of any string gives the string |
| Unicode.Utf16Iff | crates/arod/src/bundle.rs:77-78 | units decode to a string exactly when they are its UTF-16 |
| Unicode.Utf16Examples | crates/arod/src/bundle.rs:77-78 | the UTF-16 of one character of each length |
| Parcels.I32RoundTrip | crates/arod/src/aparcel.rs:12-14 | every i32 reads back, whatever surrounds it |
| Parcels.String8RoundTrip | crates/arod/src/aparcel.rs:10-41 | every optional UTF-8 string reads back and exactly its bytes are consumed |
| Parcels.String16RoundTrip | crates/arod/src/bundle.rs:67-79 | every optional UTF-16 string reads back and exactly its bytes are consumed |
| Parcels.WordExamples | crates/arod/src/aparcel.rs:12-14 | the bytes of a negative number and of an absent string |
| Parcels.StringExamples | crates/arod/src/aparcel.rs:10-26 | the bytes of a two-letter string in both forms: length, text, NUL and zeros up to a word |
| Parcels.Parcel.WriteString8 | crates/arod/src/aparcel.rs:10-26 | the padding and word loops write the length, the bytes, a NUL and zeros up to a word |
| Parcels.Parcel.ReadString8 | crates/arod/src/aparcel.rs:29-41 | the word loop reads what the layout says, moving the position past it, or fails for want of data |
| Intents.NormalIff | crates/arod/src/pending_intent.rs:30-44 | a target is its own normal form exactly when its class implies a package and its extras are absent, canonically empty or of their padded length |
| Intents.ExtrasRoundTrip | crates/arod/src/parcelables.rs:472-493 | extras read back cut or zero-extended to their declared length; one below zero means none |
| Intents.ComponentRoundTrip | crates/arod/src/parcelables.rs:420-428 | a component reads back as package and class, the class being optional on the wire |
| Intents.UriRoundTrip | crates/arod/src/parcelables.rs:447-453 | the data Uri reads back through its type word, none for type 0 |
| Intents.StringsRoundTrip | crates/arod/src/parcelables.rs:461-468 | categories read back in order, absent ones left out |
| Intents.TailSkipped | crates/arod/src/pending_intent.rs:166-170 | the two words behind the extras are skipped if they are there, and nothing is consumed if they are not |
| Intents.WireReads | crates/arod/src/pending_intent.rs:79-184 | for every intent an Android writer may send, whatever surrounds it, the reader returns its meaning and consumes exactly its bytes: the component's package goes before the intent's own, a selector or clip hides the extras, an unknown Uri everything but the action |
| Intents.WrittenMeans | crates/arod/src/pending_intent.rs:30-44 | what is written for a target is an intent on the wire that means the normal form of the target |
| Intents.TargetRoundTrip | crates/arod/src/pending_intent.rs:79-184 | for every target, whatever bytes surround it, reading what was written returns its normal form and consumes exactly the bytes written |
| Intents.InverseIff | crates/arod/src/pending_intent.rs:79-184 | the reader returns the same target if and only if it is canonical |
| IntentParcel.WriteIntent | crates/arod/src/parcelables.rs:445-496 | the step-by-step writer appends exactly the encoding of the intent |
| IntentParcel.WriteExtras | crates/arod/src/parcelables.rs:472-493 | the word loop writes the bytes of the extras, zeros where they are missing |
| IntentParcel.ReadExtras | crates/arod/src/pending_intent.rs:129-154 | the reader of the extras agrees with the layout in value, position and failure |
| IntentParcel.ReadIntentTarget | crates/arod/src/pending_intent.rs:79-184 | the step-by-step reader agrees with the decoding function in value, position and failure, on every input |
| IntentParcel.WriteThenRead | crates/arod/src/pending_intent.rs:30-44 | writing a target's intent and reading it back gives its normal form, the target itself exactly when canonical, and leaves nothing unread |
| Axml.AttributeIff | crates/aro-apk/src/axml.rs:183-192 | an attribute record stands for exactly one attribute, type code by type code, and that is the one it is read as |
| AxmlParser.Len8Read | crates/aro-apk/src/axml.rs:101-114 | one- and two-byte string lengths read back |
| AxmlParser.Len16Read | crates/aro-apk/src/axml.rs:118-124 | one- and two-unit string lengths read back |
| AxmlParser.PoolString | crates/aro-apk/src/axml.rs:93-98 | the i-th offset of a pool leads to the i-th string |
| AxmlParser.ParseStringPool | crates/aro-apk/src/axml.rs:87-136 | the pool loop returns the strings of an encoded pool, UTF-8 or UTF-16; on any input as many as stated, empty where the offset leaves the chunk |
| AxmlParser.ParseResMap | crates/aro-apk/src/axml.rs:159-161 | the resource map is the words behind the header, on any input; one that does not end on a word is an index panic, and nothing else is |
| AxmlParser.ParseStart | crates/aro-apk/src/axml.rs:163-195 | on any input the element has the name and the attributes its records stand for, at the offset and in the size stated, as far as they are there: names and ids by index, strings by data or raw index, decimal and hexadecimal integers, any word but 0 as true |
| AxmlParser.ParseChunk | crates/aro-apk/src/axml.rs:156-203 | one chunk changes strings, resource map and element stack as its meaning says; on any input an element opens on top of the stack and closes into the one below, and other chunks leave the stack alone |
| AxmlParser.NextChunk | crates/aro-apk/src/axml.rs:149-156 | the position of the loop is the start of the next chunk of the document |
| AxmlParser.Parse | crates/aro-apk/src/axml.rs:139-211 | the chunk loop returns what the chunks of a document mean; exactly data without the XML type is refused as such, and a bad chunk is reported where the chain of sizes first breaks |
| AxmlTree.RunNode | crates/aro-apk/src/axml.rs:194-201 | the chunks of a subtree hang its elements below the top of the stack and leave the open elements underneath as they were |
| AxmlTree.DocumentMeans | crates/aro-apk/src/axml.rs:206-210 | a document with one element yields it, any other number yields the synthetic root with all of them |
| AxmlTree.AllStandIff | crates/aro-apk/src/axml.rs:163-201 | the nodes of a document stand for exactly one list of elements, those the chunks build |
| AxmlTree.Unbalanced | crates/aro-apk/src/axml.rs:194-210 | an end tag without its start is skipped, and an element never closed is lost with everything inside it |
| AxmlTree.ParseDocument | crates/aro-apk/src/axml.rs:139-211 | parsing the bytes of a pool, a resource map and nodes, with namespace chunks anywhere, gives exactly the elements the nodes stand for |
| AxmlTree.AttributesBack | crates/aro-apk/src/axml.rs:179-192 | attribute records made for any attributes stand for those attributes, ids and values included |
| AxmlTree.TreeMeansItself | crates/aro-apk/src/axml.rs:139-211 | the chunks made for any element tree mean that tree |
| AxmlTree.ParseTree | crates/aro-apk/src/axml.rs:139-211 | parsing the binary XML of any element tree, in either string encoding, returns the tree |
| CursorWindow.FlatAt | crates/arod/src/services/cursor.rs:77-78 | field r * columns + c is cell c of row r, Null when the row is too short |
| CursorWindow.CursorWindowBuilder.AddString | crates/arod/src/services/cursor.rs:62-72 | a string goes to the heap with its NUL and padding, at the offset and size returned |
| CursorWindow.CursorWindowBuilder.PutCell | crates/arod/src/services/cursor.rs:76-101 | one round of the cell loop fills the next slot from the end and grows the heap |
| CursorWindow.CursorWindowBuilder.Layout | crates/arod/src/services/cursor.rs:74-102 | the loops produce the window of all rows |
| CursorWindow.CursorWindowBuilder.WriteToParcel | crates/arod/src/services/cursor.rs:56-144 | the parcel gets the preamble, the size of the window and its bytes, in line up to 16384 bytes or else as a blob, and a reader finds exactly that; the padding loop adds nothing |
| CursorWindow.HeaderReads | crates/arod/src/services/cursor.rs:106-122 | a reader of the parcel finds the start position, the name, the rows, the columns, the size and whether the window is shared, in that order |
| CursorWindow.SlotNamesIff | crates/arod/src/services/cursor.rs:62-72 | the slot of a string names its place and size exactly when they fit 32 bits |
| CursorWindow.OutOfReachExample | crates/arod/src/services/cursor.rs:63 | behind a string of 4 GiB the next string cannot be read |
| CursorWindow.WindowReads | crates/arod/src/services/cursor.rs:74-102 | a reader of slot i, 16 * (i + 1) bytes before the end, finds cell i, whatever it is, a string as long as its own place and size fit |
| CursorWindow.RowsRead | crates/arod/src/services/cursor.rs:56-144 | every cell of every row reads back, missing cells as Null, a string as long as its own place and size fit |
| CursorWindow.StringsApart | crates/arod/src/services/cursor.rs:62-72 | strings are 4-aligned, in the heap, and apart from each other and from the slots |
| CursorWindow.DeclaredSize | crates/arod/src/services/cursor.rs:104-105 | the size word states the bytes written, exactly while they fit 32 bits |
| SparseImage.CopyRaw | crates/aro-image/src/sparse.rs:69-75 | the block loop copies exactly span bytes at the output position, or fails for want of input |
| SparseImage.InPhase | crates/aro-image/src/sparse.rs:82-90 | a block of the fill pattern written after whole blocks continues the pattern |
| SparseImage.StepErrors | crates/aro-image/src/sparse.rs:57-100 | when one chunk fails and with which error: header or data beyond the input, unknown type, a raw chunk whose size is not that of its blocks |
| SparseImage.StepsFail | crates/aro-image/src/sparse.rs:56-101 | a list of chunks fails exactly when one of them does, with the error of the first |
| SparseImage.WriteFill | crates/aro-image/src/sparse.rs:82-90 | the block loop writes the pattern repeated over the whole span |
| SparseImage.ExpandChunk | crates/aro-image/src/sparse.rs:57-100 | one chunk changes file, position and input as its type says, with every error case |
| SparseImage.Expand | crates/aro-image/src/sparse.rs:36-105 | the expander computes the expansion function: file, returned size, and the same error; the magic number and the header size are refused exactly when they are wrong |
| SparseImage.StepsMean | crates/aro-image/src/sparse.rs:56-101 | after any list of well-formed chunks the output is, up to zeros at its end, the concatenation of their contents |
| SparseImage.ImageMeans | crates/aro-image/src/sparse.rs:36-105 | expanding any well-formed image into an empty file yields the contents of its chunks at the declared size, exactly them if and only if they add up to it; bytes after the image are ignored |
| Compositor.ChannelIsNearest | crates/arod/src/compositor.rs:942 | for a premultiplied channel the clamp never bites and the result is the exact src-over value rounded to nearest |
| Compositor.DrawnIff | crates/arod/src/compositor.rs:869-887 | drawing a pixel over an opaque one gives the one pixel within rounding of exact src-over, clamped where a pixel is not premultiplied, and leaves it alone at alpha 0 |
| Compositor.CopyOpaque | crates/arod/src/compositor.rs:890-895 | the canvas is copied and every pixel made opaque |
| Compositor.BlendCanvas | crates/arod/src/compositor.rs:866-889 | every pixel becomes the canvas drawn over it |
| Compositor.RangeIs | crates/arod/src/compositor.rs:907-910 | for every i32 position, wrap-around included, the loop range is exactly the part of the overlay inside the base |
| Compositor.OverlayIff | crates/arod/src/compositor.rs:907-920 | the overlay shows a pixel at a place of the base exactly when its pixel of some row and column lies there |
| Compositor.DrawAt | crates/arod/src/compositor.rs:917-946 | one overlay pixel is drawn over the base pixel below it and no other byte changes |
| Compositor.BlendOverlay | crates/arod/src/compositor.rs:898-949 | every base pixel ends as the overlay pixel covering it drawn over it, or unchanged; every index stays in both buffers |
| Compositor.SwizzlePass | crates/arod/src/compositor.rs:951-959 | red and blue of every pixel change places |
| Compositor.PresentComposite | crates/arod/src/compositor.rs:847-960 | every pixel of the buffer equals the per-pixel frame specification |
| Compositor.FrameIs | crates/arod/src/compositor.rs:858-959 | every pixel of the frame, layer by layer: surface view or else canvas at the bottom, the canvas over the surface view when it has the size of the buffer, the overlay over that, then red and blue exchanged on demand; without any canvas the buffer keeps what it held |
| LocationProtocol.StepKeeps | crates/arod/src/location_setup.rs:61-179 | every step of client, helper or worker keeps the invariant |
| LocationProtocol.EveryRun | crates/arod/src/location_setup.rs:61-179 | in every run worker i serves the package of call i and sends the i-th reply; call i returns the value of that reply, or false if it sent a cancel; a cancel sent is unread or has set the flag of its own worker and of no other; each request is answered at most once and in order; at most one worker is alive |
| LocationProtocol.CancelIsOwn | crates/arod/src/location_setup.rs:144-148 | reading a cancel sets the flag of the worker of the call it was sent for and changes no other, however late it is read |
| LocationProtocol.Progress | crates/arod/src/location_setup.rs:61-179 | while a call waits, some step of helper, worker or reply is possible |
| LocationProtocol.RankDrops | crates/arod/src/location_setup.rs:61-179 | each such step brings the call nearer to its end |
| LocationProtocol.EveryCallReturns | crates/arod/src/location_setup.rs:61-179 | from every state in which a call waits, every continuation that makes as many such steps as its budget, at most rank plus one, has returned the call with the value of its own reply, or false after a cancel, whatever the client and the scheduler do in between |
| Consent.HistoryGrows | crates/arod/src/location_setup.rs:212-215 | over the whole history a denied package is never prompted again and its denial never replaced |
| Consent.RememberAppend | crates/arod/src/location_setup.rs:223-237 | the decisions are those of the recorded events, call after call |
| Consent.EndOf | crates/arod/src/location_setup.rs:216-240 | a call for a new package that returns true observed both states last, one that returns false ended at a refusal, one that fails at a failure |
| Consent.ValidNameIff | crates/arod/src/location_setup.rs:201-208 | a name is valid exactly when it has 1 to 255 bytes and no control character, blank, sign but dot and underscore, or byte beyond ASCII |
| Consent.Setup.ObserveReady | crates/arod/src/location_setup.rs:235 | ready means both states were just observed; otherwise the first missing one is the last event |
| Consent.Setup.Ask | crates/arod/src/location_setup.rs:216-239 | a request for a new package follows the course of a granted or of a refused consent, up to the first answer that deviates |
| Consent.Setup.CarryOut | crates/arod/src/location_setup.rs:226-239 | after an accepting prompt exactly what it disclosed is installed and enabled, unless a cancel, a failure or a refusal ends the call first |
| Consent.Setup.Prepare | crates/arod/src/location_setup.rs:194-240 | for an arbitrary backend: a new valid package that is not cancelled is prompted, with flags that negate the two states just observed, and the events follow the course of consent up to the first cancel, failure or refusal; each side effect follows an accepting prompt of this call that disclosed it; a remembered decision prompts nothing, changes nothing and checks the host only for a grant; true exactly at the end of the whole course; names are refused exactly for length or foreign characters |
| NotificationShade.ReplaySnoc | crates/arod/src/shade.rs:112-118 | a reader of the log and then one more line updates its list by that line |
| ShadePanel.Rebuilding | companion/omarchy/aro.notifications/Panel.qml:61-63 | rebuilding the rows from a snapshot puts the newest on top |
| ShadePanel.Posting | companion/omarchy/aro.notifications/Panel.qml:45-50 | a posted note is set where it is or put on top, which is the update of the list seen from its other end |
| ShadePanel.Removing | companion/omarchy/aro.notifications/Panel.qml:52-55 | a removed note leaves the rows as it leaves the list |
| ShadePanel.ShowsReversed | companion/omarchy/aro.notifications/Panel.qml:57-69 | whatever the log, the widget shows the list its reader arrives at, newest first, with no id twice |
| ShadePanel.WidgetsShow | companion/omarchy/aro.notifications/Panel.qml:36-69 | in every state of the shade each reachable widget shows the current notes, row by row, newest on top |
| NotificationShade.PutAt | crates/arod/src/shade.rs:169-174 | a posted line with a known id updates that entry in place |
| NotificationShade.PutNew | crates/arod/src/shade.rs:169-174 | a posted line with a new id adds the entry at the end |
| NotificationShade.WithoutPackage | crates/arod/src/shade.rs:190-195 | the removal lines of a package, one after the other, leave exactly the notes of the others, in order |
| NotificationShade.WithoutAll | crates/arod/src/shade.rs:213-218 | the removal lines of all notes leave an empty list |
| NotificationShade.KeepPicked | crates/arod/src/shade.rs:190-191 | the notes kept and the ids sent are those of the other packages and of the package itself, each in its place |
| NotificationShade.ToldMore | crates/arod/src/shade.rs:191-195 | one more line to the clients that got the lines before reaches the same clients |
| Picks.PickedUnique | crates/arod/src/shade.rs:190-231 | what filtering leaves, said by ranks, is one sequence only |
| NotificationShade.Shade.Broadcast | crates/arod/src/shade.rs:229-231 | exactly the reachable clients stay, in their order, each with the line at the end of its log |
| NotificationShade.Shade.OnConnect | crates/arod/src/shade.rs:108-118 | a connecting widget gets the current list and joins the clients |
| NotificationShade.Shade.Post | crates/arod/src/shade.rs:157-175 | an update keeps id and place, a new note gets a fresh id at the end; every reachable client stays and gets the line, and still shows the list |
| NotificationShade.Shade.Remove | crates/arod/src/shade.rs:178-185 | the note of the key goes, every reachable client gets its removal, and its id is never used again; an unknown key changes nothing |
| NotificationShade.Shade.RemoveAll | crates/arod/src/shade.rs:188-196 | exactly the notes of the package go, the rest keep their order; every reachable client gets the removal of each in order, and still shows the list |
| NotificationShade.Shade.Dismiss | crates/arod/src/shade.rs:199-209 | the note of the id goes, every reachable client gets its removal, and its host copy is the one to close |
| NotificationShade.Shade.DismissAll | crates/arod/src/shade.rs:211-226 | all notes go, every reachable client gets the removal of each, their host copies are closed in order |
| NotificationShade.Shade.Invoke | crates/arod/src/shade.rs:135-143 | a tap launches the target of the note with that id, if there is one |
| ServiceHub.Hub.Reserve | crates/arod/src/hub.rs:23-26 | exactly the listed names become reserved for the process; names found free are guarded for it |
| ServiceHub.Hub.BeginRemove | crates/arod/src/hub.rs:34-37 | exactly the reservations of the process are retired |
| ServiceHub.Hub.FinishRemove | crates/arod/src/hub.rs:38-41 | exactly the entries of the process are withdrawn |
| ServiceHub.Hub.BeginRegister | crates/arod/src/hub.rs:58-60 | a registration is refused exactly when the name is reserved for another process; a removed process is refused its old names, and everyone but the owner a guarded name |
| ServiceHub.Hub.FinishRegister | crates/arod/src/hub.rs:61-62 | an admitted registration enters the map and keeps both guarantees, whatever ran in between |
| ServiceHub.Hub.TryUnregister | crates/arod/src/hub.rs:194-200 | only the registering process can remove its own binder, and the guarantees are kept even in the middle of another section |
| ServiceHub.Hub.OwnedService | crates/arod/src/hub.rs:28-31 | a name is found only for its owner, and never for a process barred from it |
| ServiceHub.Hub.Enter | crates/arod/src/hub.rs:22-62 | any critical section has the effect of its step, keeps bars and guards, and no process becomes the owner of a name but by its own registration |
| ServiceHub.Hub.Run | crates/arod/src/hub.rs:22-62 | any schedule of critical sections takes the maps through the steps of the schedule |
| ServiceHub.LateRegistration | crates/arod/src/hub.rs:33-62 | after a process was removed, some interleaving without a new reservation gives a name reserved for it back to it if and only if it is process 0 |
| ServiceHub.ReservedWhileFree | crates/arod/src/hub.rs:23-62 | over every interleaving that does not reserve it again, a name reserved while it was free is held by the process it was reserved for, or by process 0 if that one was removed meanwhile |
| ServiceHub.HoldersIff | crates/arod/src/hub.rs:23-62 | a process can come to hold such a name if and only if it is the owner or process 0, and without a removal of the owner if and only if it is the owner |
| ServiceHub.RemovedThenZero | crates/arod/src/hub.rs:37 | the run in which the owner is removed and process 0 registers the name |
| KeyboardMachine.RepeatsCount | crates/arod/src/keyboard.rs:137-202 | the events of a held key end in one down and repeats numbered 1, 2, 3 and so on, of the same code, scan and down time |
| KeyboardMachine.OneEvent | crates/arod/src/keyboard.rs:137-202 | one event of one key keeps the events of every other key well-behaved |
| KeyboardMachine.CancelAll | crates/arod/src/keyboard.rs:118-129 | one canceled up per held key ends exactly the held presses |
| KeyboardMachine.InOrder | crates/arod/src/keyboard.rs:121-122 | the keys of the map in increasing order, each once |
| KeyboardMachine.Keyboard.Press | crates/arod/src/keyboard.rs:150-172 | a translated press under focus emits a down with repeat 0 and may start repeating; without focus or translation nothing happens |
| KeyboardMachine.Keyboard.Release | crates/arod/src/keyboard.rs:138-149 | a held key comes up once; a key not held emits nothing |
| KeyboardMachine.Keyboard.Repeat | crates/arod/src/keyboard.rs:188-202 | a due repeat emits the next number of the pressed key and plans the next one at the rate, which is above zero |
| KeyboardMachine.Keyboard.RepeatInfo | crates/arod/src/keyboard.rs:130-136 | negative values become zero, and a zero rate stops repeating |
| KeyboardMachine.Keyboard.Leave | crates/arod/src/keyboard.rs:118-129 | one canceled up per held key in scan order, the key as last sent with flags 0x28, nothing else; afterwards nothing is pressed or repeating and there is no focus |
| MediaSelection.TokenizeSql | crates/arod/src/services/media.rs:617-642 | the character loop computes the tokens |
| MediaSelection.ResolveNum | crates/arod/src/services/media.rs:694-701 | a placeholder takes the next argument, a literal its unquoted text |
| MediaSelection.ApplySelection | crates/arod/src/services/media.rs:644-692 | the token loop computes the filter of the remaining tokens and arguments |
| MediaSelection.ApplyMeans | crates/arod/src/services/media.rs:644-692 | the tokens of any conjunction have the effect of its conditions one after the other |
| MediaSelection.ApplyOpen | crates/arod/src/services/media.rs:661-676 | a BETWEEN without its AND takes the upper bound from the next argument |
| MediaSelection.StrayToken | crates/arod/src/services/media.rs:689-691 | a token that begins no condition is skipped |
| MediaSelection.PrintTokens | crates/arod/src/services/media.rs:617-642 | any legal spacing and parentheses tokenize back to the tokens printed |
| MediaSelection.PrintedReads | crates/arod/src/services/media.rs:671-685 | a printed number denotes itself and parses exactly when it fits the column's width |
| SqlText.SameWordIff | crates/arod/src/services/media.rs:653-682 | keywords and columns are compared letter by letter, the case of A to Z apart |
| SqlText.BlanksAre | crates/arod/src/services/media.rs:621-634 | words are separated by parentheses and by exactly the characters that Unicode calls white space |
| SqlText.DenotedIff | crates/arod/src/services/media.rs:671-685 | a text denotes a number exactly when it is its decimal notation, with a sign that fits or none and zeros in front or not |
| SqlText.TrimStartIs | crates/arod/src/services/media.rs:699 | exactly the quotes at the start go |
| SqlText.TrimEndIs | crates/arod/src/services/media.rs:699 | and exactly those at the end |
| SqlText.QuotedLiteral | crates/arod/src/services/media.rs:694-701 | a number in quotes or without is kept whole by the tokenizer and denotes itself |
| SelectionMeaning.EnforcedIff | crates/arod/src/services/media.rs:661-688 | the filter agrees with SQL on one condition, for every row, exactly when its operands denote numbers the column's filter can hold |
| SelectionMeaning.MatchesMeans | crates/arod/src/services/media.rs:703-730 | a row passes the filter exactly when the last condition of every field restricts to it |
| SelectionMeaning.AcceptsIff | crates/arod/src/services/media.rs:644-730 | for every conjunction and all arguments, the rows accepted are those every unsuperseded condition restricts to, each with the arguments the code takes for it |
| SelectionMeaning.RestrictedIs | crates/arod/src/services/media.rs:703-708 | the type an endpoint is restricted to acts as one more condition on media_type behind all others |
| SelectionMeaning.ReachingIs | crates/arod/src/services/media.rs:650-688 | the arguments that reach a condition are those behind the ones taken for the conditions before it |
| SelectionMeaning.AlignedIff | crates/arod/src/services/media.rs:661-676 | a condition gets the arguments of its own placeholders, whatever they are, exactly when no range on a foreign column with placeholders stands before it |
| SelectionMeaning.SelectionMeans | crates/arod/src/services/media.rs:617-730 | in every legal layout the text of a conjunction has the effect of its conditions |
| SelectionMeaning.KeptMeans | crates/arod/src/services/media.rs:644-730 | with each field set once, arguments aligned where used and operands enforced, the rows accepted are those satisfying the conditions the filter knows |
| SelectionMeaning.ConjunctionMeans | crates/arod/src/services/media.rs:617-730 | for every conjunction in every legal layout, with each field set once, arguments aligned where they are used and all operands enforced, the rows accepted are exactly those that satisfy it in SQL |
| SelectionMeaning.AgreesIffAligned | crates/arod/src/services/media.rs:661-676 | a satisfiable conjunction on different columns is read right for all enforced arguments and all rows exactly when nothing shifts the arguments before a placeholder in use |
| SelectionMeaning.EmptyAnyway | crates/arod/src/services/media.rs:661-676 | the conjunction has to be satisfiable for that: an empty literal range hides every shift |
| SelectionMeaning.SameColumnAnyway | crates/arod/src/services/media.rs:661-676 | and its columns different: an equation on the same column can hide the shift as well |
| SelectionMeaning.AgreesIffEnforced | crates/arod/src/services/media.rs:644-730 | an aligned conjunction on different columns of which some row is accepted agrees with SQL on every row exactly when all its operands are enforced |
| SelectionMeaning.RepeatedEqIff | crates/arod/src/services/media.rs:677-688 | two equations on one field agree with SQL exactly when their operands denote the same number |
| SelectionMeaning.RepeatedRangeIff | crates/arod/src/services/media.rs:670-673 | two ranges on _id agree with SQL exactly when the later one is empty or lies within the earlier one |
| SelectionMeaning.OverWideExample | crates/arod/src/services/media.rs:681 | a bucket beyond 32 bits accepts every row, SQL none |
| SelectionMeaning.NotANumberExample | crates/arod/src/services/media.rs:683 | so does an _id that is no number |
| SelectionMeaning.MissingArgumentExample | crates/arod/src/services/media.rs:650-654 | and one whose argument is missing |
| SelectionMeaning.BeyondRangeExample | crates/arod/src/services/media.rs:671 | a range that starts beyond 64 bits accepts every row, SQL none |
| SelectionMeaning.OtherRangeExample | crates/arod/src/services/media.rs:661-676 | a range on another column of the filter restricts nothing |
| SelectionMeaning.OtherColumnExample | crates/arod/src/services/media.rs:679-687 | nor does a condition on a column the filter does not know |
| SelectionMeaning.MisalignedExample | crates/arod/src/services/media.rs:661-676 | a foreign range with placeholders makes a later condition use the wrong argument |
| SelectionMeaning.SetTwiceExample | crates/arod/src/services/media.rs:677-688 | of two equations on one field the last alone decides |
| SelectionMeaning.WishesMean | crates/arod/src/services/media.rs:617-730 | for any bucket_id =, media_type =, _id = and _id BETWEEN on numbers, each field once, in any legal layout and any mix of arguments and literals, quoted or not, the rows accepted are exactly those that meet all of them |
| Seccomp.LoadedReturns | crates/aro-exec/src/seccomp.rs:98-100 | a program the kernel loads always reaches a return inside the program |
| Seccomp.RunFrom | crates/aro-exec/src/seccomp.rs:96-100 | from the i-th comparison on, the rest of the list decides |
| Seccomp.FilterDecides | crates/aro-exec/src/seccomp.rs:91-100 | for any list, architecture, number and arguments, the filter notifies exactly for a listed number of an x86_64 call and allows every other call |
| Seccomp.ListedIs | crates/aro-exec/src/seccomp.rs:97 | for numbers that fit 32 bits, listed means listed: the cast merges nothing |
| Seccomp.CutIsRefused | crates/aro-exec/src/seccomp.rs:101 | no program cut by the u16 length passes the kernel's check |
| Seccomp.Program | crates/aro-exec/src/seccomp.rs:91-100 | the pushes build a filter with that behaviour for any list |
| Seccomp.Install | crates/aro-exec/src/seccomp.rs:87-109 | the filter is loaded exactly when it fits the kernel's limit, and then it is the whole filter |
| Seccomp.ServeOne | crates/aro-exec/src/seccomp.rs:121-139 | only a negative-priority setpriority and the id queries get a synthetic result, everything else continues |
| Seccomp.Supervised | crates/aro-exec/src/seccomp.rs:69-139 | filter and supervisor together: what every system call of an application does, and that the supervisor is asked about the supervised calls only |
| DesktopArg.QuotedIs | crates/arod/src/main.rs:667 | the five replacements in a row are one map on characters |
| DesktopArg.EscapedIs | crates/arod/src/main.rs:668 | so are the three of the outer layer |
| DesktopArg.WrittenIs | crates/arod/src/main.rs:666-669 | the whole chain is one map on characters between double quotes |
| DesktopArg.DesktopArgBack | crates/arod/src/main.rs:666-669 | undoing string escapes, quoting and field codes gives back every string |
| DesktopArg.LauncherRuns | crates/arod/src/main.rs:524-533 | a launcher's Exec line runs exactly its three words, whatever the paths contain |
| DesktopArg.HandlerRuns | crates/arod/src/main.rs:572-578 | a scheme handler's Exec line passes the link on as one argument, whatever the paths and the link contain |
| DesktopArg.OneLine | crates/arod/src/main.rs:666-669 | an argument never contains a line break, so it cannot leave its key |

## Left out

- The property files `property_info` and `properties_serial`, file permissions and `parse_prop_file`: fixed tables and I/O.
- The reader of the property area is a definition of this project after the layout of the file; it does not follow a link that does not point forward, which no area built here contains.
- Ill-formed UTF-8 and UTF-16: the lossy repair is one replacement character in the model.
- `rsbinder`'s own parcel is not part of this model: a byte buffer with a position stands for it, its UTF-16 strings after `crates/arod/src/bundle.rs`.
- Strings, categories and bundles longer than an i32 can count, in parcels.
- The log line that parses the extras of an Intent, and `bundle.rs` itself.
- AxmlParser.Parse: does not say which document comes out of malformed chunks; an index panic is an outcome of its own. `ParseStart` and `ParseResMap` say on any input what one chunk yields, `ParseStringPool` how many strings and which are empty. The encoder writes attributes at the standard offset and size.
- Overflow of `usize` and `u64` sums (positions, areas, sizes); i32 overflow is the wrap-around of a release build; the compositor's i32 products are bounded by the buffer size, below 2 GiB, and its dimensions are below 2^29.
- The shared memory file of a large cursor window is a byte sequence returned beside the parcel; floats are their bits.
- I/O errors of the sparse expander's output; an output that is not empty at the start is covered by `SparseImage.Expand` but not by the meaning of an image.
- Frame dumps, buffer slots and the Wayland side of the compositor.
- End of input, broken pipes and oversized lines in the location protocol, and the JSON of its messages; requests have numbers in the model so that replies can be told apart.
- The host commands behind `Backend` in the location helper: their answers are arbitrary.
- The socket of a widget: a connection whose write failed is taken to fail from then on. JSON, the reader thread and the callback that closes a host copy are left out.
- Waiters of the service manager: they are called outside both locks.
- Key maps, modifiers and the clock of the keyboard are inputs of each call.
- Offsets, limits, sort orders and counts of media queries; column names that need quoting; operators other than `=`, `BETWEEN` and `AND`.
- `pidfd`s, ioctls and namespaces around the seccomp filter; a missing thread while a notification is served.
- The other keys of a desktop entry, `android_file_uri`, and every other command of `main`.
- Namespaces, mounts, process spawning, zip access, D-Bus, audio, power and the other stub services, the transaction code tables: foreign calls or constant replies.
