# Proofs about planten's RAMFS, its 9P server and client, the VGA writer and the mount planner

This project models the parts of planten that hold state and proves what they promise, with Dafny 4.11.
`dafny verify dfyconfig.toml` checks everything.

## What is modelled

**The RAMFS tree.** `Tree.dfy` says what each operation computes on a tree as a value. `Shapes.dfy` and `RamFs.dfy` are
the code: nodes are objects with mutable maps and data, a cursor moves down the tree in a loop, and writes, removals,
creations, truncations and renames happen in place. Each method is proved to turn the tree it holds into the one the value
function gives. `Flat.dfy` proves the tree to be a prefix-closed map from component lists to attributes, `TreeLaws.dfy`
what spans several operations (whole-subtree renames, undoing, node counts, the invariant), and `FileLog.dfy` that file
contents are decided by the last write or truncation that touched each byte. `Fields.dfy` spells out what each operation does
to every field of every node.

**The 9P wire.** `Codec.dfy`, `Frames.dfy` and `Messages.dfy` are the encoders and parsers as functions, with every
`as u16` and `as u32` cast written out, and their exact round-trip bounds. `Wire.dfy` is the code: a cursor that moves over
bytes, buffers that grow, and the client loop that drains stats. Strings are byte sequences; `Utf8.dfy` says which are valid.
`Layout.dfy` says which byte is where.

**The server.** `Server.dfy` gives the effect of every handler on a connection's fids, the shared tree and the output.
`Connection.dfy` is the code: one connection's handlers and reading loop over the in-place tree, proved to take exactly
these steps. `System.dfy` lets any number of connections step in any order over one tree; each handler reaches the tree
inside one lock, so a handler is one step. `Serving.dfy` has any number of connection objects sharing one tree, scheduled in
any order, and proves them to be in exactly the state of such a run. `Walks.dfy`, `Effects.dfy`, `History.dfy`, `PathForms.dfy`, `Draining.dfy` and
`Listing.dfy` hold what is proved about all runs: refinement, isolation, separation of creates, conservation of nodes, open
modes as a function of the wire history, normal path strings, replies that match requests, and exactly which directories are
listed right when their bytes are cut anywhere.

`Requests.dfy` and `Trails.dfy` say for each request, apart from the functions of `Server.dfy`, when it is granted, why it is
refused, what its reply holds and what it leaves; `Bindings.dfy` where every fid stands in every run.

**The client.** `Client.dfy` is `P9Client`: it writes a frame under a wrapping tag and takes the next frame from its
stream. `Calls.dfy` joins both ends: the bytes of a call go through the server of the transition system, which takes as many
frames as they hold, and the bytes of the replies come back; it says exactly which calls leave a connection ready.
`EndToEnd.dfy` and `Flows.dfy` say what the calls come to, `Sessions.dfy` what sessions of any length do and how one goes wrong.
`Serving.Carry` makes a call with the two objects.

**The VGA writer and the mount planner.** `Vga.dfy` proves the 25 by 80 array, scrolled in place, to be the end of an
endless page. `MountPlan.dfy` proves the one-pass merging loop to preserve meaning and to give a canonical form.

The clock and the qid hash are parameters: every operation gets the time it would read, and the hash is any function of a
path and an mtime.

## What the code does where one might expect otherwise

The model follows the code. Section 5 of the Plan 9 manual says otherwise on the first six points.

- walk(5) allows partial walks; here a Twalk follows all names or is refused and changes nothing.
- A Twalk from an unknown fid starts at the root instead of being refused.
- open(5) moves the fid of a Tcreate to the new file and opens it; here the fid stays where it was.
- stat(5) wraps the stat of an Rstat in a second size field; here there is one.
- read(5) returns whole directory entries; here directory reads are cut at any byte.
- A fid holds a path string, so it does not follow a rename, and a fid on a plain file may still be walked or created under.
- A Tremove unbinds its fid even when the remove fails.
- A write of no bytes past the end still extends the file with zeros.
- A Twstat may rename a file to a name with a slash, after which no path string leads to it (`PathForms.RenamedIsReachable`).
- A stat whose strings exceed 65488 bytes is sent with a wrapped size and is not read back (`Codec.StatRoundTrip`); in a
  directory it also hides every entry after it (`Draining.DrainsUpTo`).
- A directory entry is looked up again by its path string. A child with a slash in its name is missing from the listing, or
  another node stands for it, and a child called ".", ".." or "/" is shown as the directory, its parent or the root
  (`Listing.ListedOnNormalPath`, `Listing.SlashChildExample`, `Listing.SentForSpecials`).
- A union of no paths keeps its place in a mount plan unless a neighbour on the same target has paths
  (`MountPlans.CanonicalExactly`).
- A request or a reply of more than 2^32 - 8 bytes goes out with a wrapped frame size, and what is behind the size that
  is left is taken for further frames (`EndToEnd.LongWrite`, `Sessions.MismatchExample`).
- A directory fid without the directory bit in its mode, after a Twstat, reads as a plain file.

## Model

| member | source | states |
|---|---|---|
| Paths.ComponentsAtSlash | libs/planten_fs_ramfs/src/lib.rs:150 | splitting at a slash splits the component list: the components of `a/b` are those of `a` followed by those of `b` |
| Paths.RenderRoundTrip | libs/planten_fs_ramfs/src/lib.rs:150 | joining components with slashes and splitting again gives them back, and a component list can be written as a path string exactly when every component is non-empty and slash-free |
| Paths.ResolveStepRefines | libs/planten_fs_ramfs/src/server.rs:607-635 | for every base and name, the string code fails exactly on the empty name and otherwise means: stay for ".", root for "/", drop the last component (or stay at the root) for "..", append the components of the name for anything else |
| Paths.ResolveStepNormal | libs/planten_fs_ramfs/src/server.rs:607-635 | on normal paths and slash-free names the resulting string itself is again the normal rendering of the resulting component list |
| Paths.TrimIsIdle | libs/planten_fs_ramfs/src/server.rs:619-624 | on a normal path other than the root the trim changes nothing and the search for the last slash always finds it, just before the last component, so its None arm is dead |
| Paths.StepUpExactly | libs/planten_fs_ramfs/src/server.rs:613-626 | for any base string: ".." gives the part before the last slash that has something else behind it, "/" when nothing is before that slash, and "/" when there is no such slash |
| Paths.ComponentsOfWireName | libs/planten_fs_ramfs/src/lib.rs:150 | every component of a valid UTF-8 string is again valid UTF-8 and no longer than the string |
| Shapes.Node.WriteAt | libs/planten_fs_ramfs/src/lib.rs:159-165 | in place: grown with zeros up to the end of the write, overwritten, mtime stamped, every other field kept |
| Shapes.Node.Edit | libs/planten_fs_ramfs/src/lib.rs:40-51 | the four conditional field updates of a Twstat on a clone |
| Shapes.Updated | libs/planten_fs_ramfs/src/lib.rs:23-61 | replacing the part of the object graph at or below one path replaces exactly the subtree at that path in the tree it stands for |
| Shapes.Moving | libs/planten_fs_ramfs/src/lib.rs:33-35 | one step of the cursor along a path stays on the node the path prefix names, or the whole lookup fails |
| RamFiles.RamFs.constructor | libs/planten_fs_ramfs/src/lib.rs:9-13 | a new RamFs is a lone root directory "/" of user and group |
| RamFiles.RamFs.Stat | libs/planten_fs_ramfs/src/lib.rs:189-200 | the cursor loop returns a deep copy of exactly the node that the component list names, or None |
| RamFiles.RamFs.ReadFile | libs/planten_fs_ramfs/src/lib.rs:85-99 | the data of the node at a path; None for the root and for missing paths |
| RamFiles.RamFs.ListDir | libs/planten_fs_ramfs/src/lib.rs:101-114 | the names of exactly the children, strictly increasing in byte order |
| Sorting.LeIsLexicographic | libs/planten_fs_ramfs/src/lib.rs:112 | byte order is decided by the first byte that differs, and a prefix comes first |
| RamFiles.RamFs.Create | libs/planten_fs_ramfs/src/lib.rs:68-83 | the loops of `create_file` (and, with the other kind, `create_dir` at 116-132) compute the value-level creation in place |
| RamFiles.RamFs.CreateLeaf | libs/planten_fs_ramfs/src/lib.rs:116-132 | the last component: a file takes the place of whatever was there, a directory yields to it |
| RamFiles.RamFs.Write | libs/planten_fs_ramfs/src/lib.rs:148-167 | None leaves the tree as it was; otherwise only the named node changes, to the written data and the new mtime |
| RamFiles.RamFs.Remove | libs/planten_fs_ramfs/src/lib.rs:173-187 | None leaves the tree as it was; otherwise the child is gone from its parent and nothing else changed |
| RamFiles.RamFs.WstatFromStat | libs/planten_fs_ramfs/src/lib.rs:15-66 | None leaves the tree as it was; otherwise the edited clone stands under its old or its new name |
| RamFiles.RamFs.EditChildOf | libs/planten_fs_ramfs/src/lib.rs:38-65 | the part after the cursor has reached the parent: missing child and taken name are refused before anything changes |
| Flat.MakeAt | libs/planten_fs_ramfs/src/lib.rs:68-83 | what a stat of any path shows after a creation: the new leaf, the made ancestors, nothing below a new file, everything else as before |
| Flat.RemoveAt | libs/planten_fs_ramfs/src/lib.rs:173-187 | after a remove, a path at or below the removed one is gone and every other path shows what it showed |
| Flat.RenameAt | libs/planten_fs_ramfs/src/lib.rs:53-60 | after a rename every path p/s shows at p'/s, nothing is left at or below p, every other path shows what it showed |
| Flat.MakeRefines | libs/planten_fs_ramfs/src/lib.rs:68-132 | create on the tree is, on the map from component lists to attributes: drop what is at or below, add the missing ancestors and the leaf |
| Flat.RemoveRefines | libs/planten_fs_ramfs/src/lib.rs:173-187 | remove on the tree is removing a key and its extensions, and fails on the same paths |
| Flat.WriteRefines | libs/planten_fs_ramfs/src/lib.rs:148-167 | write on the tree is the change of one entry, and fails on the same paths |
| Flat.WstatRefines | libs/planten_fs_ramfs/src/lib.rs:15-66 | wstat on the tree is the change of one entry or the re-keying of a whole prefix, and fails on the same paths |
| Flat.RunRefines | libs/planten_fs_ramfs/src/lib.rs:15-200 | after any sequence of operations a stat of any component list is a lookup in the prefix-closed map that ran the same operations |
| TreeLaws.MakeKeepsOk | libs/planten_fs_ramfs/src/lib.rs:68-132 | creation keeps: every map key is its node's non-empty name and all strings fit the wire |
| TreeLaws.WstatKeepsOk | libs/planten_fs_ramfs/src/lib.rs:15-66 | wstat, renames included, keeps the same invariant |
| TreeLaws.WstatOutcome | libs/planten_fs_ramfs/src/lib.rs:31-56 | a wstat is refused exactly when the file is missing or the new name is taken; the root is never refused |
| TreeLaws.RenameMovesSubtree | libs/planten_fs_ramfs/src/lib.rs:53-60 | a rename moves the whole subtree unchanged, only the top node's wstat fields differ, the old paths are gone and all paths apart from the two are untouched |
| TreeLaws.RenameUndone | libs/planten_fs_ramfs/src/lib.rs:53-60 | a rename and its inverse with don't-touch fields restore the exact tree |
| TreeLaws.CreateUndone | libs/planten_fs_ramfs/src/lib.rs:68-83 | a create under an existing parent and its remove restore the exact tree |
| TreeLaws.MakeCounts | libs/planten_fs_ramfs/src/lib.rs:68-132 | a creation where nothing was adds exactly as many nodes as components were missing, at least one |
| TreeLaws.RemoveCounts | libs/planten_fs_ramfs/src/lib.rs:173-187 | a remove takes exactly the size of the removed subtree |
| TreeLaws.WriteCounts | libs/planten_fs_ramfs/src/lib.rs:148-167 | a write keeps the node count |
| TreeLaws.WstatCounts | libs/planten_fs_ramfs/src/lib.rs:15-66 | a wstat, rename included, keeps the node count |
| Fields.RootIsMade | libs/planten_fs_ramfs/src/lib.rs:9-13 | a new RamFs is the directory "/" of mode 0o755 with the directory bit, owned by "user" and "group", and nothing else |
| Fields.MadeFields | libs/planten_fs_ramfs/src/lib.rs:68-83 | field by field, what every path shows after a creation: a file is new, of mode 0o644 and with the given data; a directory and each missing ancestor is new only where nothing was, of mode 0o755 with the directory bit; owner, group and both times as at creation; all else as before |
| Fields.WrittenFields | libs/planten_fs_ramfs/src/lib.rs:148-167 | field by field: a write is refused exactly for the root and for what is not there; it changes the data byte by byte as asked, sets mtime, and keeps every other field and node |
| Fields.WstatFields | libs/planten_fs_ramfs/src/lib.rs:15-66 | field by field: mode, mtime, gid, length and name are set unless left alone, length and name never for the root; uid and atime stay; what was below a renamed node comes along, and all else is as before |
| Fields.RemovedFields | libs/planten_fs_ramfs/src/lib.rs:173-187 | a remove is refused exactly for the root and for what is not there; it takes the node with all below it, and nothing else |
| FileLog.LastTouchDecides | libs/planten_fs_ramfs/src/lib.rs:46-48 | byte i is that of the last write covering it, or zero when a truncation to at most i came after all of them |
| FileLog.CoveredIsWithin | libs/planten_fs_ramfs/src/lib.rs:161-164 | a byte written and not cut since lies inside the file |
| FileLog.UntouchedIsInitial | libs/planten_fs_ramfs/src/lib.rs:148-167 | a byte never written and never cut is the initial one, or zero where the file was shorter |
| FileLog.LogLength | libs/planten_fs_ramfs/src/lib.rs:46-48 | the length is that of the last truncation (or the initial one) raised to the furthest end of a write since, and it is one of these |
| FileLog.DisjointWritesCommute | libs/planten_fs_ramfs/src/lib.rs:159-164 | writes to disjoint ranges commute on the data |
| FileLog.DataIsLog | libs/planten_fs_ramfs/src/lib.rs:148-167 | amid any operations that leave the file in its place, its data is what its own writes and truncations made |
| Utf8.CutAtAscii | libs/planten_9p/src/lib.rs:397 | an ASCII byte is a character boundary: cutting a valid string around it leaves valid strings |
| Utf8.ValidIsEncoded | libs/planten_9p/src/lib.rs:393-399 | a byte string is valid exactly when it is the UTF-8 encoding of some sequence of Unicode scalar values |
| Codec.ParseEncodedString | libs/planten_9p/src/lib.rs:378-399 | decode after encode is the identity for valid strings shorter than 65536 bytes, whatever follows |
| Codec.ParseEncodedQid | libs/planten_9p/src/lib.rs:385-439 | a qid survives encode and decode, whatever follows |
| Codec.ParseStatConsumes | libs/planten_9p/src/lib.rs:441-444 | a successful stat decode consumes the size field and exactly as many bytes as it says |
| Codec.StatRoundTrip | libs/planten_9p/src/lib.rs:359-376 | decode of an encoded stat followed by any bytes gives the stat and consumes exactly the payload if and only if its strings total at most 65488 bytes |
| Codec.DecodedStatFits | libs/planten_9p/src/lib.rs:441-470 | no decode ever returns a stat whose strings total more than 65488 bytes |
| Codec.OversizedIsShort | libs/planten_9p/src/lib.rs:359-376 | a stat whose strings total more makes the decoder ask for more bytes, however many follow: it and all behind it are lost |
| Codec.StatPrefixIsShort | libs/planten_9p/src/lib.rs:441-444 | a stat cut anywhere makes the decoder report end of input, never a wrong stat |
| Layout.Numbers | libs/planten_9p/src/lib.rs:401-417 | two-, four- and eight-byte numbers are little endian |
| Layout.QidLayout | libs/planten_9p/src/lib.rs:385-391 | type at byte 0, version at 1, path at 5 of 13 bytes |
| Layout.StatLayout | libs/planten_9p/src/lib.rs:359-376 | size, type, dev, qid, mode, atime, mtime, length, name, uid, gid and muid, each at its place |
| Layout.FrameLayout | libs/planten_9p/src/lib.rs:250-258 | size at byte 0, type at 4, tag at 5, body from 7 on, the size modulo 2^32 |
| Layout.SessionLayout | libs/planten_9p/src/lib.rs:260-283 | the fields of Tversion and Tattach bodies, each at its place; no afid is sent as 0 |
| Layout.DataLayout | libs/planten_9p/src/lib.rs:296-318 | the fields of Topen, Tread and Twrite bodies, each at its place |
| Layout.FileLayout | libs/planten_9p/src/lib.rs:320-353 | the fields of Tcreate, Twstat, Tclone, Tclunk, Tremove and Tstat bodies, each at its place |
| Layout.WalkLayout | libs/planten_9p/src/lib.rs:285-294 | fid, newfid, number of names, and the names one after the other |
| Layout.FrameExactly | libs/planten_9p/src/lib.rs:18-47 | reading a frame, by the byte: when it waits, when it is no frame, and otherwise what type, tag, body and rest are |
| Layout.StringExactly | libs/planten_9p/src/lib.rs:393-399 | reading a string, by the byte: when it waits, when it is refused, and otherwise what it is |
| Layout.PaddedStat | libs/planten_9p/src/lib.rs:441-472 | bytes that the size of a stat counts behind its fields are skipped |
| Frames.ReadIsFrame | libs/planten_9p/src/lib.rs:18-47 | an accepted frame re-encodes to exactly the bytes consumed, at least 7 of them |
| Frames.FrameRoundTrip | libs/planten_9p/src/lib.rs:250-258 | a built frame is read back, whatever follows, if and only if its body is at most 2^32 - 8 bytes |
| Frames.FramePrefixIsShort | libs/planten_9p/src/lib.rs:18-47 | no strict prefix of a frame parses: the reader reports end of input |
| Frames.StreamRoundTrip | libs/planten_9p/src/lib.rs:18-53 | any list of frames, concatenated, is read back as exactly that list, and the reader stops at the end |
| Frames.StreamIsFrames | libs/planten_9p/src/lib.rs:18-53 | any byte stream is the frames read from it followed by a rest no frame can be read from |
| Messages.WalkBodyRoundTrip | libs/planten_9p/src/lib.rs:285-294 | a Twalk body is parsed by the server to the same fid, newfid and names if and only if there are fewer than 65536 names, each shorter than 65536 bytes |
| Messages.ParseWriteBody | libs/planten_9p/src/lib.rs:311-318 | the server reads the fid, offset and data the client wrote |
| Messages.ParseReadBody | libs/planten_9p/src/lib.rs:303-309 | the server reads the fid, offset and count the client wrote |
| Messages.ParseCreateBody | libs/planten_9p/src/lib.rs:324-331 | the server reads the fid, name, permissions and mode the client wrote |
| Messages.ParseCloneBody | libs/planten_9p/src/lib.rs:348-353 | the server reads the two fids the client wrote |
| Messages.ParseVersionBody | libs/planten_9p/src/lib.rs:260-266 | the server reads the msize and version the client wrote |
| Messages.ParseAttachBody | libs/planten_9p/src/lib.rs:276-283 | the server reads the fid and skips the strings the client wrote |
| Wire.Cursor.ReadExact | libs/planten_9p/src/lib.rs:396 | takes exactly the asked bytes off the rest, or reports end of input |
| Wire.Cursor.DecodeString | libs/planten_9p/src/lib.rs:393-399 | takes what the string parser takes, with its two error kinds |
| Wire.Cursor.DecodeQid | libs/planten_9p/src/lib.rs:419-439 | the thirteen bytes read at once and cut at their places are what reading the fields one by one gives |
| Wire.Cursor.DecodeStat | libs/planten_9p/src/lib.rs:441-470 | the sized buffer first, then the fields from a second cursor: the stat, the position and the error of the parser |
| Wire.Cursor.ReadMessage | libs/planten_9p/src/lib.rs:18-47 | the frame reader takes exactly the frame that the parser takes |
| Wire.DrainStatEntries | libs/planten_fs_ramfs/tests/golden_integration.rs:46-68 | the client loop takes exactly the whole stats off the front and keeps the cut one |
| Wire.MakeFrame | libs/planten_9p/src/lib.rs:250-258 | the buffer grown step by step is the frame |
| Wire.MakeQid | libs/planten_9p/src/lib.rs:385-391 | thirteen zeros overwritten at their places are the encoded qid |
| Wire.MakeStat | libs/planten_9p/src/lib.rs:359-376 | the two buffers grown step by step are the encoded stat |
| Wire.MakeWalkBody | libs/planten_9p/src/lib.rs:285-294 | the loop over the names builds the Twalk body |
| Wire.MakeWriteBody | libs/planten_9p/src/lib.rs:311-318 | the buffer grown step by step is the Twrite body |
| Walks.TwoWalks | libs/planten_fs_ramfs/src/server.rs:260-321 | from an existing base, walking xs + ys in one request succeeds exactly when walking xs and then ys does, binds the same fid state and answers the concatenated qids |
| Walks.WalkIsAllOrNothing | libs/planten_fs_ramfs/src/server.rs:280-313 | a Twalk not answered RWALK leaves fids and tree alone; one answered RWALK changes the new fid only, which is then not open |
| Walks.WalkFollowsChildren | libs/planten_fs_ramfs/src/server.rs:280-303 | for ordinary names, re-resolving each path string from the root reaches the node found child by child, and the walk fails exactly when a child is missing |
| Server.ReplyMatchesRequest | libs/planten_fs_ramfs/src/server.rs:69-115 | in any state a decodable request is answered by its own reply type or RERROR, and a request that closes the connection changed nothing |
| Server.WalkLoopIsNames | libs/planten_fs_ramfs/src/server.rs:280-303 | decoding and following the names one at a time is following the decoded list; with fewer names than announced no walk finishes |
| Server.ReadBits | libs/planten_fs_ramfs/src/server.rs:598-600 | the arithmetic read test is the bit test of the code for every mode byte |
| Server.WriteBits | libs/planten_fs_ramfs/src/server.rs:602-605 | the arithmetic write test is the bit test of the code for every mode byte |
| Server.MadeIsFound | libs/planten_fs_ramfs/src/server.rs:154-166 | after a creation where nothing was, the node is there: the unwrap cannot fail |
| Requests.VersionRequest | libs/planten_fs_ramfs/src/server.rs:224-230 | a Tversion that decodes gets msize 131072 and "9P2000", whatever it asks for |
| Requests.OtherRequest | libs/planten_fs_ramfs/src/server.rs:114-127 | a Tauth gets thirteen zero bytes, a Tflush nothing, any unknown type an Rerror |
| Requests.AttachRequest | libs/planten_fs_ramfs/src/server.rs:232-258 | a Tattach that decodes puts its fid on "/", not open, and gets the root's qid |
| Requests.CloneRequest | libs/planten_fs_ramfs/src/server.rs:175-195 | a Tclone gives the new fid the path, the qid and the open mode of the old one, and changes no other fid |
| Requests.OpenRequest | libs/planten_fs_ramfs/src/server.rs:323-357 | exactly when a Topen is granted; its fid keeps its path and gets the mode; the node's qid and an iounit of zero are answered |
| Requests.ReadRequest | libs/planten_fs_ramfs/src/server.rs:359-426 | exactly when and why a Tread is refused; otherwise it brings the listing of a directory or the data of a file, from the offset on, all there is up to the count |
| Requests.WriteRequest | libs/planten_fs_ramfs/src/server.rs:428-465 | exactly when and why a Twrite is refused; otherwise data and mtime of the file change, byte by byte and field by field as asked, and nothing else, or zero is answered and nothing changes |
| Requests.StatRequest | libs/planten_fs_ramfs/src/server.rs:197-222 | exactly when a Tstat is refused; otherwise every field of the node is answered, the owner again as muid |
| Requests.WstatRequest | libs/planten_fs_ramfs/src/server.rs:467-493 | exactly when and why a Twstat is refused; otherwise the node is edited field by field, moved with all below it when it gets a new name, and nothing else changes |
| Requests.RemoveRequest | libs/planten_fs_ramfs/src/server.rs:499-526 | exactly when a Tremove fails; otherwise the node goes with all below it and nothing else; the fid goes either way |
| Requests.ClunkRequest | libs/planten_fs_ramfs/src/server.rs:528-538 | a Tclunk unbinds its fid, bound or not, and changes nothing else |
| Requests.CreateRequest | libs/planten_fs_ramfs/src/server.rs:129-173 | exactly when and why a Tcreate is refused; otherwise an empty file of mode 0o644 or, by the directory bit of the permissions, a directory of mode 0o755 is made with its missing ancestors, its qid and an iounit of zero are answered, and no other node and no fid changes |
| Requests.CreatedThenWritten | libs/planten_fs_ramfs/src/server.rs:154-164 | a file just made reads as nothing, and once written from the start as what was written; a directory reads as the empty listing both times |
| Trails.TrailIsStepwise | libs/planten_fs_ramfs/src/server.rs:275-303 | each stop of a walk is one step from the stop before and names a node; where it breaks off the next name cannot be resolved or leads nowhere |
| Trails.WalkRequest | libs/planten_fs_ramfs/src/server.rs:260-321 | exactly when and why a Twalk is refused, from the fid's path or the root; otherwise the Rwalk holds the qid of every stop, in order, each at its place, and the new fid stands at the last, not open |
| Trails.WalkAnswersEveryName | libs/planten_fs_ramfs/src/server.rs:275-319 | along ordinary names: granted exactly when they lead to a node, child by child; from byte 2 + 13 i on the Rwalk shows type, version and path of the node that the first i + 1 names lead to |
| Effects.DispatchIsOp | libs/planten_fs_ramfs/src/server.rs:69-115 | the tree after a request is the tree after one tree operation read off the request, or unchanged |
| Effects.SuccessMeans | libs/planten_fs_ramfs/src/server.rs:69-115 | exactly when Tcreate, Tremove and Twstat are answered with success |
| Effects.CreatedIsThere | libs/planten_fs_ramfs/src/server.rs:154-172 | after a successful Tcreate the path and all its ancestors exist, the path was free and is not the root, and no fid moved |
| Effects.AttachIsGranted | libs/planten_fs_ramfs/src/server.rs:232-258 | a decodable Tattach is always granted, the root is never missing, and only its fid changes |
| Effects.DispatchKeepsFidsOk | libs/planten_fs_ramfs/src/server.rs:69-115 | no request leads to a fid path whose components are empty or do not fit the wire |
| Effects.DispatchKeepsTreeOk | libs/planten_fs_ramfs/src/server.rs:69-115 | for all requests: map keys stay equal to their nodes' non-empty names |
| Effects.PathStays | libs/planten_fs_ramfs/src/server.rs:69-115 | a path stays until it or an ancestor is removed or renamed |
| Effects.RequestCounts | libs/planten_fs_ramfs/src/server.rs:69-115 | a request changes the node count by the components a Tcreate made and the subtree a Tremove took, and by nothing else |
| Connections.Connection.HandleWalk | libs/planten_fs_ramfs/src/server.rs:260-321 | the handler's fids, tree, output and failure are those of the walk step |
| Connections.Connection.FollowNames | libs/planten_fs_ramfs/src/server.rs:280-303 | the name loop finishes, fails or breaks off as the recursive walk does |
| Connections.Connection.Content | libs/planten_fs_ramfs/src/server.rs:386-412 | the directory loop builds the children's encoded stats in listing order; a file gives its data |
| Connections.Connection.HandleRead | libs/planten_fs_ramfs/src/server.rs:359-426 | the handler's fids, tree, output and failure are those of the read step |
| Connections.Connection.HandleWrite | libs/planten_fs_ramfs/src/server.rs:428-465 | the handler's fids, tree, output and failure are those of the write step |
| Connections.Connection.HandleCreate | libs/planten_fs_ramfs/src/server.rs:129-173 | the handler's fids, tree, output and failure are those of the create step |
| Connections.Connection.HandleWstat | libs/planten_fs_ramfs/src/server.rs:467-493 | the handler's fids, tree, output and failure are those of the wstat step |
| Connections.Connection.HandleRemove | libs/planten_fs_ramfs/src/server.rs:499-526 | the handler's fids, tree, output and failure are those of the remove step: the fid goes even when the remove fails |
| Connections.Connection.HandleOpen | libs/planten_fs_ramfs/src/server.rs:323-357 | the handler's fids, tree, output and failure are those of the open step |
| Connections.Connection.HandleClone | libs/planten_fs_ramfs/src/server.rs:175-195 | the handler's fids, tree, output and failure are those of the clone step |
| Connections.Connection.HandleAttach | libs/planten_fs_ramfs/src/server.rs:232-258 | the handler's fids, tree, output and failure are those of the attach step |
| Connections.Connection.HandleStat | libs/planten_fs_ramfs/src/server.rs:197-222 | the handler's fids, tree, output and failure are those of the stat step |
| Connections.Connection.HandleMessage | libs/planten_fs_ramfs/src/server.rs:69-115 | the match on the message type is the dispatch step |
| Connections.Connection.HandleNext | libs/planten_fs_ramfs/src/server.rs:69-115 | handling one message is one step of the transition system, whatever the other connections are at |
| Connections.Connection.HandleClient | libs/planten_fs_ramfs/src/server.rs:55-117 | a lone connection: frames are handled one by one until the input ends or one fails, and the tree, the output and the result are those of the transition system (`Serving.FileServer.Serve` has any number of them) |
| Connections.StreamIsAnswered | libs/planten_fs_ramfs/src/server.rs:55-117 | bytes in, bytes out: a stream of decodable requests, none of them a read that brings more than a frame can carry, is answered by as many frames, in order, each with its request's tag and type + 1 or RERROR |
| Serving.Carry | libs/planten_9p/src/lib.rs:76-85 | the client object's send and wait, with the bytes carried to the connection object and back, leave both objects as one call of the model does |
| Serving.Around | libs/planten_fs_ramfs/src/server.rs:58-115 | one turn of the loop of handle_client takes the next frame and is one step of the transition system, or hangs up |
| Serving.FileServer.Accept | libs/planten_fs_ramfs/src/server.rs:33-42 | accepting a client is one step of the transition system |
| Serving.FileServer.Turn | libs/planten_fs_ramfs/src/server.rs:33-42 | a turn of one thread leaves every connection object, and the tree they share, in the state of one step |
| Serving.FileServer.Serve | libs/planten_fs_ramfs/src/server.rs:33-48 | clients come and threads run in any order: the objects end in exactly the state of a run of the transition system, in which each connection's requests are the first frames of its input, in order |
| Systems.FreshServerInv | libs/planten_fs_ramfs/src/lib.rs:9-13 | a server that starts from an empty RamFs satisfies the invariant |
| Systems.RunKeepsInv | libs/planten_fs_ramfs/src/server.rs:36-42 | every reachable state of every interleaving keeps the tree and fid invariants |
| Systems.OthersUntouched | libs/planten_fs_ramfs/src/server.rs:56 | a step of one connection leaves the fids and the output of every other alone |
| Systems.NodeStays | libs/planten_fs_ramfs/src/server.rs:69-115 | over any interleaving a node stays while neither it nor an ancestor is removed or renamed |
| Systems.CreatesAreSeparated | libs/planten_fs_ramfs/src/server.rs:154-164 | between two successful Tcreates of one path, by any clients, there is a successful Tremove or Twstat rename of that path or of an ancestor |
| Systems.SystemRefinesFlatMap | libs/planten_fs_ramfs/src/server.rs:36-42 | whatever the interleaving, a stat of any path is a lookup in the flat map that ran the same operations |
| Systems.ContentsFollowTheLog | libs/planten_fs_ramfs/src/server.rs:456-460 | whatever the interleaving, the data of a file left in its place is what the run's writes and truncations made of it |
| Systems.NodesAreConserved | libs/planten_fs_ramfs/src/server.rs:36-42 | over any run: nodes now = nodes at the start + components created - nodes removed |
| History.LastTouchDecides | libs/planten_fs_ramfs/src/server.rs:323-351 | the open mode read off the wire is decided by the last exchange that touched the fid |
| History.ModesFollowHistory | libs/planten_fs_ramfs/src/server.rs:175-195 | in every run a fid is bound and open exactly as the wire history says: by its last successful Topen since it was bound, followed through clones to the source's mode at that moment, ended by clunk and remove |
| History.DataNeedsOpen | libs/planten_fs_ramfs/src/server.rs:371-383 | an Rread or Rwrite is sent only when the history of that connection gives the fid a mode that allows it |
| Bindings.PathsFollowHistory | libs/planten_fs_ramfs/src/server.rs:175-195 | in every run a fid stands exactly where the wire history says: on the root after its attach, where its walk led from wherever the walked fid stood then, or after a clone where the source stood then; no other request moves it, and clunk and remove unbind it |
| Bindings.LastWordDecides | libs/planten_fs_ramfs/src/server.rs:264-313 | where the history says a fid stands is decided by the last exchange that says so |
| History.OutputIsReplies | libs/planten_fs_ramfs/src/server.rs:540-548 | all bytes ever sent on a connection are one frame per exchange, in order, with the tag of the request and type + 1 or RERROR |
| History.EveryRequestIsAnswered | libs/planten_fs_ramfs/src/server.rs:58-117 | a connection that sends decodable requests stays open and gets exactly one reply to each, whatever others do |
| History.ReplyFits | libs/planten_fs_ramfs/src/server.rs:540-543 | a reply body fits a frame if and only if it is not that of a read that asked for more than 2^32 - 12 bytes and found more |
| History.RepliesFit | libs/planten_fs_ramfs/src/server.rs:540-543 | over any run the reply bodies of a connection all fit if and only if none of its reads was such |
| History.ModestIsShort | libs/planten_fs_ramfs/src/server.rs:414-420 | asking for at most 2^32 - 12 bytes each time is enough for that |
| History.OutputIsRead | libs/planten_fs_ramfs/src/server.rs:540-548 | read back by the framing loop, the output is exactly one message per exchange, in order, if and only if no read brought more than a frame can carry |
| PathForms.PathsStayNormal | libs/planten_fs_ramfs/src/server.rs:280-313 | in every reachable state of runs whose Twalks use slash-free names, every fid path is in normal form: no empty, "." or ".." component, no trailing slash |
| PathForms.RenamedIsReachable | libs/planten_fs_ramfs/src/lib.rs:53-60 | after a rename some path string leads to the node exactly when the new name has no slash |
| Draining.ChainIsData | libs/planten_fs_ramfs/src/server.rs:414-420 | reads chained from one offset are a slice of the data, and reach its end when one of positive size comes back empty |
| Draining.ChainEnds | libs/planten_fs_ramfs/src/server.rs:414-420 | with positive sizes such a read comes after at most as many reads as there are bytes left and one more |
| Draining.ChunkedStats | libs/planten_fs_ramfs/tests/golden_integration.rs:175-181 | however encoded stats, with a rest that never completes one, are cut into chunks, draining whole stats as they complete yields exactly the list and keeps the rest |
| Draining.DrainsUpTo | libs/planten_fs_ramfs/tests/golden_integration.rs:46-68 | however encoded stats are cut, exactly those before the first that does not fit come out, and the bytes from that one on stay pending |
| Draining.DrainsAll | libs/planten_fs_ramfs/tests/golden_integration.rs:46-68 | so the list itself comes out, with nothing pending, if and only if all its stats fit |
| Draining.DrainedStatsFit | libs/planten_fs_ramfs/tests/golden_integration.rs:46-68 | whatever the bytes, no stat whose strings total more than 65488 bytes is ever drained |
| Draining.DrainFails | libs/planten_fs_ramfs/tests/golden_integration.rs:46-60 | behind any stats that fit, a stat with a string that is not UTF-8 spoils the whole buffer |
| Listing.DirBytesAreSent | libs/planten_fs_ramfs/src/server.rs:390-401 | a directory reads as the encoded stats of whatever the path string of each entry leads to |
| Listing.SentIsNamed | libs/planten_fs_ramfs/src/server.rs:393-396 | no stat sent for an entry has a name with a slash other than "/", and its strings fit the wire one by one |
| Listing.SentIsChild | libs/planten_fs_ramfs/src/server.rs:393-396 | for an ordinary name the stat sent is the child's |
| Listing.SentForSpecials | libs/planten_fs_ramfs/src/server.rs:607-626 | for entries called ".", ".." and "/" the stats sent are those of the directory, of its parent and of the root |
| Listing.ListedExactly | libs/planten_fs_ramfs/src/server.rs:389-402 | however a directory's bytes are cut, they drain to exactly the children's stats if and only if every child's stat fits and every child shows itself: an ordinary name, or one of ".", ".." and "/" that looks like the node sent for it |
| Listing.ShowsExactly | libs/planten_fs_ramfs/src/server.rs:582-626 | a child shows itself if and only if its name is ordinary, or is one of ".", ".." and "/" and the node that stands for it has that name too and the same mode, owners, times and length |
| Listing.ListedOnNormalPath | libs/planten_fs_ramfs/src/server.rs:389-402 | on a path in normal form a directory can be listed if and only if every child's stat fits and every child has an ordinary name, but for one called "/" with the root's mode, owners, times and length |
| Listing.ListedWhenSlashFree | libs/planten_fs_ramfs/src/server.rs:389-402 | with no child called ".", ".." or "/" that is: if and only if every child's name is slash-free and every child's stat fits |
| Listing.SlashChildIsNotListed | libs/planten_fs_ramfs/src/server.rs:393-396 | a directory with a child whose name holds a slash, other than "/", is never listed right, however it is read |
| Listing.DotChildIsNotListed | libs/planten_fs_ramfs/src/server.rs:613-626 | nor, on a path in normal form, is one with a child called "." or ".." |
| Listing.SlashTakesTwoOperations | libs/planten_fs_ramfs/src/lib.rs:53-60 | two operations on a fresh tree, a creation in the root and a rename to "a/b", lead to such a state |
| EndToEnd.SlashTakesThreeRequests | libs/planten_fs_ramfs/src/server.rs:129-493 | so do three requests, all granted: a Tcreate in the root, a Twalk to the file and a Twstat |
| Listing.SlashChildExample | libs/planten_fs_ramfs/src/server.rs:393-396 | there nothing is sent for the file and the listing of the root is wrong |
| Listing.DirectoryRoundTrip | libs/planten_fs_ramfs/src/server.rs:389-425 | Treads of any sizes from offset 0 until an empty one, drained, are exactly the stats of the children in name order if and only if the directory can be listed |
| Listing.ListingIsTheChildren | libs/planten_fs_ramfs/src/lib.rs:101-114 | that list shows each child once, in increasing name order, with every field of its own, qid, times and owners included |
| Listing.WholeFileIsRead | libs/planten_fs_ramfs/src/server.rs:403-425 | Treads chained from 0 until an empty one are the whole file |
| Clients.P9Client.TakeTag | libs/planten_9p/src/lib.rs:70-74 | returns the current tag and moves to the next, wrapping from 65535 to 0 |
| Clients.P9Client.Send | libs/planten_9p/src/lib.rs:76-79 | writes exactly one frame under the next tag |
| Clients.P9Client.Wait | libs/planten_9p/src/lib.rs:80-84 | takes the next frame off the stream and returns it, an end of input, or a tag mismatch |
| Clients.P9Client.SendAndWait | libs/planten_9p/src/lib.rs:76-85 | writes exactly one frame under the next tag and returns the next frame, an end of input, or a tag mismatch |
| Clients.P9Client.Read | libs/planten_9p/src/lib.rs:157-166 | one Tread frame out, one reply in, checked for its type and decoded to its payload |
| Clients.P9Client.Write | libs/planten_9p/src/lib.rs:168-175 | one Twrite frame out, one reply in, checked and decoded to its count |
| Clients.P9Client.Walk | libs/planten_9p/src/lib.rs:125-135 | one Twalk frame out, one reply in, checked and decoded to its qid count |
| Clients.P9Client.Open | libs/planten_9p/src/lib.rs:137-145 | one Topen frame out, one reply in, checked and decoded to its iounit |
| Clients.P9Client.Create | libs/planten_9p/src/lib.rs:147-155 | one Tcreate frame out, one reply in, checked and decoded to qid and iounit |
| Clients.P9Client.Stat | libs/planten_9p/src/lib.rs:184-191 | one Tstat frame out, one reply in, checked and decoded to a stat |
| Clients.P9Client.Wstat | libs/planten_9p/src/lib.rs:193-198 | one Twstat frame out, one reply in, checked for its type |
| Clients.P9Client.Version | libs/planten_9p/src/lib.rs:87-101 | one Tversion frame out, one reply in, checked, with a zero msize refused |
| Clients.P9Client.Attach | libs/planten_9p/src/lib.rs:112-123 | one Tattach frame out, one reply in, checked for its type |
| Clients.P9Client.Clunk | libs/planten_9p/src/lib.rs:177-182 | one Tclunk frame out, one reply in, checked for its type |
| Clients.P9Client.Remove | libs/planten_9p/src/lib.rs:200-205 | one Tremove frame out, one reply in, checked for its type |
| Clients.CountQids | libs/planten_9p/src/lib.rs:129-134 | the qid loop succeeds exactly when the announced qids are all there |
| Calls.CallIsDispatch | libs/planten_9p/src/lib.rs:76-85 | a call through encode, frame, handler, frame and decode is one dispatch, and its reply comes back whole under the tag of the call, with nothing left unread, if and only if its body is at most 2^32 - 8 bytes |
| Calls.LongRequestIsNotServed | libs/planten_9p/src/lib.rs:250-258 | a request body of more than 2^32 - 8 bytes loses the connection, or leaves something unread or waited for |
| Calls.CallLeavesReady | libs/planten_9p/src/lib.rs:76-85 | a call leaves the connection open, with nothing unread and nothing waited for, if and only if its request fits a frame, is answered, and is not a read that brings more than 2^32 - 12 bytes |
| Sessions.TagsNeverMismatch | libs/planten_9p/src/lib.rs:70-85 | in sessions of any length whose requests and replies fit frames, past any number of tag wraps and amid any steps of others, no tag ever mismatches, and after n calls the tag is n on, modulo 65536 |
| Sessions.ReadyExactly | libs/planten_9p/src/lib.rs:70-85 | a session of any length stays ready after every call if and only if each of its requests fits a frame, is answered, and is not a read that brings more than 2^32 - 12 bytes |
| Sessions.WrappedReply | libs/planten_9p/src/lib.rs:250-258 | a read that brings 2^32 - 4 bytes comes back with an empty body, and its payload stays unread |
| Sessions.PayloadIsTaken | libs/planten_9p/src/lib.rs:76-85 | such a payload is what the next call takes for its reply, whatever it asks: a mismatch if and only if its second and third byte are not the tag |
| Sessions.MismatchExample | libs/planten_9p/src/lib.rs:76-85 | a session of three calls, on an empty file, whose third call gets a mismatched tag |
| Sessions.ModestIsFair | libs/planten_9p/src/lib.rs:157-166 | a client keeps its session fair by itself: requests that fit, and reads of at most 2^32 - 12 bytes |
| EndToEnd.WalkCall | libs/planten_9p/src/lib.rs:125-135 | a client walk along ordinary names ends at the node found child by child and returns their number, or is refused with nothing changed |
| EndToEnd.WriteCall | libs/planten_9p/src/lib.rs:168-175 | a client write changes the file by all its bytes and returns their number, or returns 0 and changes nothing when the file is gone or is the root; on an existing file it returns the full count if and only if the bytes are at most 2^32 - 24 |
| EndToEnd.LongWrite | libs/planten_9p/src/lib.rs:168-175 | a longer write loses the connection, or is the write of its first bytes, as many as its length leaves modulo 2^32, and the server takes the others for further requests |
| EndToEnd.ReadCall | libs/planten_9p/src/lib.rs:157-166 | a client read returns exactly the chunk of the file's or directory's bytes, and changes nothing, if and only if the chunk is at most 2^32 - 12 bytes |
| EndToEnd.StatCall | libs/planten_9p/src/lib.rs:184-191 | a client stat returns the file's stat if and only if its strings total at most 65488 bytes |
| EndToEnd.WstatCall | libs/planten_9p/src/lib.rs:193-198 | a client wstat does exactly the tree operation with the stat that arrives, or is refused with the tree unchanged; the client's own stat arrives if and only if its strings total at most 65488 bytes, and one whose strings are too much only together is refused |
| EndToEnd.ArrivesExactly | libs/planten_9p/src/lib.rs:193-198 | a stat arrives as it is if and only if it fits its size field, and not at all when only the sum of its strings is too much |
| EndToEnd.WriteThenRead | libs/planten_9p/src/lib.rs:157-175 | on an existing file open for reading and writing, a write and then a read of as many bytes at the same offset return the bytes if and only if they are at most 2^32 - 24 |
| EndToEnd.WriteThenReadAmidOthers | libs/planten_9p/src/lib.rs:157-175 | the same with any steps of other clients in between that leave the file in its place and touch none of these bytes |
| EndToEnd.ReadsAreChunks | libs/planten_9p/src/lib.rs:157-166 | chained client reads are the chained chunks of the data if and only if every chunk is at most 2^32 - 12 bytes |
| EndToEnd.ReadsReturnTheFile | libs/planten_9p/src/lib.rs:157-166 | client reads chained from 0 until an empty one return the whole file, and with positive sizes the empty one comes, when the file or every count is at most 2^32 - 12 bytes |
| EndToEnd.ReadsListTheDirectory | libs/planten_9p/src/lib.rs:157-166 | client reads of a directory, drained, are exactly its children's stats if and only if the directory can be listed |
| EndToEnd.FreshSession | libs/planten_9p/src/lib.rs:112-175 | attach, walk, open, write and read from a fresh connection all succeed and return the bytes written, if and only if these are at most 2^32 - 24 |
| Flows.VersionCall | libs/planten_9p/src/lib.rs:87-101 | a client version call against this server succeeds with "9P2000" |
| Flows.VersionTaken | libs/planten_9p/src/lib.rs:93-100 | the version of any reply is taken, unless its msize is zero |
| Flows.OtherTypesAreRefused | libs/planten_9p/src/lib.rs:215-226 | a reply of another type than the call's is an error of every call |
| Flows.QidsAreThere | libs/planten_9p/src/lib.rs:129-134 | the qids of an Rwalk are read exactly when there are thirteen bytes for each |
| Flows.CreateCall | libs/planten_9p/src/lib.rs:147-155 | a client create makes an empty file or directory, field by field, and gets its qid and an iounit of zero, or is refused with nothing changed |
| Flows.StatAfterWrite | libs/planten_9p/src/lib.rs:168-191 | a client stat after a write shows its time as mtime and qid version, the grown length, and all else as before |
| Flows.StatAfterWstat | libs/planten_9p/src/lib.rs:184-198 | a client stat after a wstat shows every field as set, the others as before; after a new name the fid names nothing |
| Flows.RemoveCall | libs/planten_9p/src/lib.rs:200-205 | a client remove takes the node with all below it, or is refused with the tree unchanged; the fid goes either way |
| Flows.ClunkCall | libs/planten_9p/src/lib.rs:177-182 | a client clunk takes its fid and nothing else |
| Vga.Writer.constructor | kernel/planten_kernel/src/vga_buffer.rs:122-128 | the screen as it stands becomes the first 25 rows of the page, the cursor at column 0 |
| Vga.Writer.WriteByte | kernel/planten_kernel/src/vga_buffer.rs:61-80 | the screen stays the last 25 rows of the page that took the byte; a full row wraps only when the next byte comes |
| Vga.Writer.BreakRow | kernel/planten_kernel/src/vga_buffer.rs:82-91 | scrolling in place is one more blank row on the page |
| Vga.Writer.ShiftUp | kernel/planten_kernel/src/vga_buffer.rs:83-88 | the copying loops move every row up by one |
| Vga.Writer.ClearRow | kernel/planten_kernel/src/vga_buffer.rs:93-101 | one row becomes blanks, every other cell stays |
| Vga.Writer.WriteString | kernel/planten_kernel/src/vga_buffer.rs:103-112 | the screen is the last 25 rows of the page that took all bytes of the string, unprintable ones as 0xfe |
| Vga.PutAllConcat | kernel/planten_kernel/src/vga_buffer.rs:103-112 | any number of writes is one write of their concatenation |
| Vga.WrapSize | kernel/planten_kernel/src/vga_buffer.rs:65-77 | a line of n bytes takes (n-1)/80 extra rows and ends at column (n-1)%80+1; an empty one takes none and ends at column 0 |
| Vga.LayoutSnoc | kernel/planten_kernel/src/vga_buffer.rs:61-80 | one byte more extends the wrapped layout by a cell, a row, or a wrapped row |
| Vga.PageIsLayout | kernel/planten_kernel/src/vga_buffer.rs:61-112 | written from column 0, a text stands on the page as its wrapped lines, row by row, over the old last row and blank ones, and the cursor is at its end |
| Vga.FullLineScrollsOnce | kernel/planten_kernel/src/vga_buffer.rs:65-66 | 80 bytes and a newline scroll once |
| Vga.LineCell | kernel/planten_kernel/src/vga_buffer.rs:61-112 | cell by cell: byte 80 i + c of a line stands in row i and column c, as itself when printable and as 0xfe otherwise, in the writer's color; behind its end the first row is as it was and new rows are blank |
| Vga.NewlineEndsLine | kernel/planten_kernel/src/vga_buffer.rs:62-63 | a newline ends a line, whatever stands around it |
| MountPlans.Namespace.UnionMulti | libs/planten_ns/src/lib.rs:67-70 | one entry, which means the same unions one by one |
| MountPlans.Namespace.MountPlan | libs/planten_ns/src/lib.rs:86-120 | the loop that edits the last element computes the plan |
| MountPlans.PlanPreserves | libs/planten_ns/src/lib.rs:86-120 | exploding unions path by path gives the same sequence before and after planning |
| MountPlans.PlanIsSeparated | libs/planten_ns/src/lib.rs:102-116 | no two adjacent plan entries are unions on one target |
| MountPlans.PlanIsIdempotent | libs/planten_ns/src/lib.rs:86-120 | planning twice is planning once |
| MountPlans.PlanConcat | libs/planten_ns/src/lib.rs:86-120 | planning a concatenation merges the two plans only at the seam |
| MountPlans.PlanIsCanonical | libs/planten_ns/src/lib.rs:86-120 | two lists in which every maximal run of adjacent unions on one target holds a path have the same plan if and only if their exploded sequences are equal |
| MountPlans.PlanIsFull | libs/planten_ns/src/lib.rs:102-116 | the runs of a list hold paths if and only if its plan has no empty union |
| MountPlans.CanonicalExactly | libs/planten_ns/src/lib.rs:86-120 | a list has the plan of its exploded sequence, and of every list that means the same and whose runs hold paths, if and only if its own runs hold paths |
| MountPlans.EmptyUnionKeepsItsPlace | libs/planten_ns/src/lib.rs:109-114 | the smallest list that fails: an empty union alone means nothing but stays in the plan |

## Left out

- TCP sockets, threads, the accept loops of `run_server` and logging: a connection is its bytes in and its bytes out, and threads are the order of steps.
- ProcFs, NetFs, SrvFs and DevFs: their contents come from the host, and their servers are simpler copies of this state machine without open modes.
- The 10_ns, bind, mount and nsctl programs: system calls and argument plumbing.
- `ensure_procfs`, `ensure_srvfs` and JSON persistence in planten_ns: a lookup and a push, serde, and the file system.
- `P9Client::auth` and `P9Client::flush`: the same one-frame exchange as the other calls with other bodies.
- The VGA colour table and `ColorCode::new`, the print macros and the mapping of the buffer at its address.
- Values of qid hashes and timestamps: nothing is claimed about qids being distinct or stable.
- Clock readings: one reading serves all nodes that one operation makes, and all frames that the bytes of one call hold, where the code reads the clock for each.
- Machine overflow of `offset + count` and `offset + data.len()` in `usize`: sums are unbounded, as if they did not overflow.
- `7 + body.len() as u32` in `build_frame` wraps, as a release build does; a debug build would stop there instead.
- Memory limits: a Tread count, a Twstat length or a write offset may ask for any number of bytes.
- `FsServer::walk`, `open`, `read`, `clunk` and `wstat` of RamFs: wrappers, or bodies that only return `Some(())`.
- `str::split`, `filter`, `rfind`, `trim_end_matches`, `String::from_utf8` and `sort` are functions with the library's meaning, not loops.
- RamFiles.RamFs.WstatFromStat: the code clones the child with its whole subtree and drops the original; the model clones the node and hands its child map over, which leaves the same tree.
- Shapes.Node.WriteAt: a node's data is a sequence that is replaced, not a vector written cell by cell.
- Clients.P9Client.SendAndWait: the bytes that arrive are a field given from outside; `Serving.Carry` is where they come from the server.
- Sessions.TagsNeverMismatch: after a request or a reply whose frame size wraps, only `Sessions.ReadyExactly` and `EndToEnd.LongWrite` speak; what the bytes left over then do is not followed further.
- Connections.Connection.HandleClient: no other connection changes the tree between two of its frames; with others, `Serving.FileServer.Serve` is the statement.
- EndToEnd.WriteThenRead: a Tread asks for less than 2^32 bytes, so no longer write can be read back in one call.
- EndToEnd.WalkCall: Twalk bodies of more than 2^32 - 8 bytes are left to `Calls.LongRequestIsNotServed`.
