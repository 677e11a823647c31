# Umka OS, verified models

This project models the algorithms of Umka OS whose correctness is not visible from any one line, and
proves what the operating system relies on them for. Each `.dfy` file is one module. Code that works
in place is modelled in place: classes with the fields of the source, arrays where it has buffers,
loops where it loops. Every such method is proved against a specification function, and the
properties are proved of that.

| part of the system | modules |
|---|---|
| cached software rendering | `Painting`, `Clipping`, `Hashing`, `Caching`, `Renderer` |
| z-ordered command list, container pool, word wrap of the user interface | `Threading`, `Recording`, `Permutations`, `Microui`, `Frames`, `ContainerPool`, `WordWrap` |
| virtual file system, streams, boot image | `FsModel`, `NodeLayout`, `Vfs`, `Streams`, `ImageFormat`, `Loader` |
| free-list allocator | `Arena`, `Alloc` |
| 64-bit arithmetic | `Powers`, `Arith`, `SignedArith`, `Popcount` |
| number formatting, parsing, bounded output | `Numerals`, `NumberIO`, `Printf` |
| interrupt queue and mouse | `Interrupts`, `Mouse`, `InputPath` |
| blackjack | `Blackjack` |

`Common` holds what several of them share.

## Reading guide

- **Rendering.** The screen is 1024 by 768 pixels, which is what the 64 by 48 cells cover. A frame is
  *plain* if it has no clip commands and paints every pixel; the desktop's frames begin with a
  rectangle over the whole screen, but those with clipped text do have clip commands. `NoCollision`
  says of every cell that equal hashes come from equal command lists; it is an assumption about the
  frames, not about the hash function. Icons, glyphs and the background picture are arbitrary
  functions, and so is the memory image of a command struct. Coordinates are unbounded integers: sums
  of them are assumed not to overflow.
- **Command list.** `Recording` is the protocol: what the list looks like while roots are open and
  nested. `Microui.Context` carries it out on the list, the stack and the root list. A drawing
  command is just its identity. `Frames` plays a whole tree of windows through it.
- **File system.** `FsModel.Fs` maps paths to entries; a file may have children, as in the source.
  `NodeLayout` says when child, sibling and parent pointers spell out such a map. While a subtree is
  being freed, the entries taken off their parents but not yet released are the *detached* ones.
- **Allocator.** Memory is an array of cells, a header taking sixteen of them, so that a header
  written into a payload would be seen to destroy it.
- **Interrupts.** `Interrupts.Run` runs any list of scheduler steps and interrupts. The handler is one
  step because its gate keeps interrupts off (`fs/kernel/idt.um`, line 30). `Kernel` is the code, with
  an arbitrary number of interrupts allowed between any two of its steps.

## Where the code differs from what one would expect

- Clip commands break the cached redraw in two ways. A region redraw skips the clip commands that miss
  the region (`Caching.ClipBreaksCache`), and a clip command is chained into the cells its rectangle
  touches, not into those it clips, so that a later frame, even one without clip commands, keeps a
  picture that is not its own (`Caching.UnchainedClipBreaksCache`). `Caching.CachedPixelExactly` says
  exactly when a redrawn pixel is right, and `Caching.RunPixelExactly` says it for every pixel of
  every run without collisions.
- Repeating the first frame repaints the whole screen, and repeating any later one nothing
  (`Caching.RepeatedFrameExactly`).
- A write through a stream goes to the end of the file wherever the stream is positioned
  (`Streams.SeekBackLosesChunks`).
- The file system does not tell an empty directory from an empty file, and nothing else is lost
  (`ImageFormat.LoadedAlike`).
- Removing an entry takes with it every path that passes through it, even if the path leads elsewhere
  by `..` (`FsModel.RemovedResolves`).
- `vsnprintf` with an empty format leaves the buffer unterminated, which section 7.21.6.5 of ISO C11
  does not allow (`Printf.Vsnprintf`).
- A right-justified number with a precision below its length overflows its field
  (`Printf.OverlongField`), and zero padding goes in front of the sign, so that such fields do not read
  back (`Printf.SignedFieldRoundTrip`).
- A reshuffle in the middle of a round shuffles the cards on the table in again, so that one can be
  dealt twice (`Blackjack.Game.RepeatsExactly`).
- A further card can lower the worth of a hand in blackjack (`Blackjack.TotalDropsExactly`), and two
  hands over 21 that are worth the same are a draw (`Blackjack.Game.WhoWon`).

## Model

| member | source | states |
|---|---|---|
| Renderer.Gfx.Run | src/sys/gfx.c:150-272 | after any run of frames that paint what is redrawn, with clip commands or not, every pixel shows what the last frame that changed its cell put there; if the frames hold no clip command and no hash collides, the screen shows what a full redraw of the last frame alone gives; the three bytes of a pixel, the lowest first, are the low 24 bits of its colour |
| Renderer.Gfx.Swap | src/sys/gfx.c:215-272 | for any frame that paints every region, clip commands or not: the repainted cells are exactly those whose hash changed, each gets what a redraw of its run of changed cells gives, all other pixels keep their value, the queue is empty and the tables are ready for the next frame; after plain frames without a collision the screen shows the full redraw |
| Renderer.Gfx.Repaint | src/sys/gfx.c:215-264 | the part of the swap that changes the screen, with the chains of every cell that it leaves in the hash table |
| Renderer.Gfx.RedrawChanged | src/sys/gfx.c:252-264 | the scan over the cells repaints each changed cell as part of its run, and no pixel of any other cell |
| Renderer.Gfx.RedrawRow | src/sys/gfx.c:253-263 | the runs found in one row are exactly the maximal runs of its changed cells, although the scan skips the cell behind each run |
| Renderer.Gfx.RedrawRegion | src/sys/gfx.c:150-210 | a region redraw changes the screen inside the region only, and there to the replay of the commands that meet the region |
| Renderer.Gfx.PixelBytes | src/sys/gfx.c:195-209 | the bytes of the pixel in column u of row v lie at 3 * (u + 1024 * v) and, read lowest first, are the low 24 bits of its colour |
| Caching.ChannelsHoldColour | src/sys/gfx.c:202-207 | a colour is split into bytes that put together again are its low 24 bits |
| Clipping.LastCommandDecides | src/sys/gfx.c:102-193 | whatever region is redrawn, the last command whose rectangle holds a pixel decides it: a rectangle or a set bit of a character gives its colour, a texel of an icon its tint (`Renderer.Gfx.DoDrawIcon` spells it out), each inside the clip rectangle, the background its picture, unclipped; otherwise the pixel shows what the commands before it left |
| Clipping.ClipIsLast | src/sys/gfx.c:156-191 | the clip rectangle in force is that of the last clip command that meets the region, or the whole screen |
| Clipping.RunAreaExactly | src/sys/gfx.c:252-262 | what is repainted for a changed cell is sixteen rows of the screen, from the first to the last cell of its run |
| Renderer.Gfx.ChainHashes | src/sys/gfx.c:216-250 | every cell chains the hashes of exactly the commands that touch it, in order |
| Renderer.Gfx.ResetHashes | src/sys/gfx.c:268-271 | the new hashes become the old ones and every chain restarts from the initial value |
| Renderer.Gfx.SetPixel | src/sys/gfx.c:102-107 | one pixel of the backbuffer changes, and only inside the clip rectangle |
| Renderer.Gfx.DoDrawIcon | src/sys/gfx.c:109-120 | an icon paints exactly the texels whose low byte is not 0, each masked with the colour, inside the clip rectangle |
| Renderer.Gfx.DoDrawChar | src/sys/gfx.c:122-131 | a character paints exactly the set bits of its glyph in the current colour inside the clip rectangle |
| Renderer.Gfx.DoDrawRect | src/sys/gfx.c:133-143 | a rectangle paints exactly its pixels inside the clip rectangle |
| Renderer.Gfx.Enqueue | src/sys/gfx.c:293-321 | a command is appended, or dropped when 4096 are queued |
| Renderer.Gfx.DrawClip | src/sys/gfx.c:323-335 | a clip command holds exactly the pixels of its rectangle that are on the screen |
| Caching.UnchangedCellKeepsPicture | src/sys/gfx.c:252-262 | a pixel whose cell hash did not change already has the colour this frame gives it |
| Painting.Intersect | src/sys/gfx.c:94-100 | the intersection has exactly the pixels that both rectangles have |
| Painting.OverlapIsSharing | src/sys/gfx.c:145-148 | the overlap test holds exactly if two non-empty rectangles share a pixel |
| Painting.OverlapOfLine | src/sys/gfx.c:145-148 | and for a rectangle without width or without height exactly if it lies strictly inside |
| Painting.RegionShowsTopInk | src/sys/gfx.c:150-193 | replaying a clip-free list over any region gives each of its pixels the topmost ink, whatever the region |
| Painting.RegionAgreesWithFullReplay | src/sys/gfx.c:150-193 | so a region redraw agrees with the full redraw on the region |
| Clipping.TopsCompared | src/sys/gfx.c:150-193 | with clip commands: what a region redraw leaves on top of a pixel comes no earlier in the list than what the full redraw leaves there, and it is the same command exactly if there is none, or it is the background, or the last clip command before it that meets the screen meets the region |
| Clipping.RegionAgreesExactly | src/sys/gfx.c:150-193 | so a region redraw agrees with the full redraw on a pixel exactly under that condition, or if the two commands on top happen to have the same colour |
| Clipping.ClipsThatMeetAgree | src/sys/gfx.c:156-191 | in particular they agree if every clip command meets the region |
| Caching.CachedPixelExactly | src/sys/gfx.c:252-262 | that condition for the run of changed cells that a swap redraws: exactly when the picture of a redrawn pixel is the full one |
| Caching.KeptPixelExactly | src/sys/gfx.c:215-271 | and for a pixel kept from an earlier frame with the same commands chained into its cell: exactly when the command on top then and the one on top in a full redraw now have the same place among the chained ones, or the same colour |
| Caching.RunPixelExactly | src/sys/gfx.c:215-271 | for any run without collisions, and any pixel, redrawn by the last frame or kept since an earlier one: exactly when it shows what a full redraw of the last frame gives |
| Caching.LastChangedChainsAlike | src/sys/gfx.c:221-271 | without collisions every cell has been drawn, and the frame that changed it last chains the same commands into it as the last frame does |
| Caching.ChainedClipsKeepPicture | src/sys/gfx.c:221-249 | keeping a cell is right in spite of clip commands if all of them are chained into the cell in both frames: their full redraws agree there |
| Caching.ClipBreaksCache | src/sys/gfx.c:215-264 | a clipped frame, queued first or after a frame of one rectangle, for which a swap shows a colour that the full redraw does not |
| Caching.UnchainedClipBreaksCache | src/sys/gfx.c:221-271 | a clipped frame that is shown right, and after it a frame without clip commands that is not, since the clip rectangle lies outside the cell that it decides |
| Painting.FullRectCovers | fs/user/user.um:114-116 | a frame that begins with a rectangle over the whole screen paints every pixel |
| Painting.CellDependsOnTouching | src/sys/gfx.c:221-249 | what shows in a cell depends only on the commands chained into the hash of the cell |
| Painting.TouchesExactly | src/sys/gfx.c:221-241 | a command is chained into the cells from that of its first pixel to that of the pixel behind its last one, what lies outside the screen counting for the cells at the edge |
| Painting.SameTouchingSamePicture | src/sys/gfx.c:221-249 | two frames with the same commands touching a cell show the same picture there |
| Clipping.FullRectPaintsAnyRegion | fs/user/user.um:114-116 | whatever clip commands follow, such a frame paints every region that is redrawn, so a swap does not depend on what was on the screen |
| Clipping.PlainPaintsAnyRegion | src/sys/gfx.c:150-193 | so does any frame without clip commands that paints the whole screen |
| Hashing.Fnv32Buf | src/sys/gfx.c:28-37 | the loop computes the chained FNV-1a step over the bytes of the buffer |
| Hashing.FnvTestVectors | src/sys/gfx.c:28-37 | the published 32-bit FNV-1a values of the empty text and of the letter a |
| Hashing.XorBitwise | src/sys/gfx.c:32-32 | the exclusive or is that of every bit of the two numbers |
| Hashing.ChainOfOne | src/sys/gfx.c:244-248 | the chain of a cell that one command touches is the hash, from the seed, of the four bytes of the hash of the command |
| Hashing.BytesHoldWord | src/sys/gfx.c:244-248 | the four bytes of a hash that are chained are its value, the lowest first |
| Hashing.SpreadUndone | src/sys/gfx.c:33-34 | the shift-and-add step is a multiplication that can be undone modulo 2^32 |
| Hashing.Fnv32Injective | src/sys/gfx.c:28-37 | hashing the same bytes from different values gives different values |
| Hashing.CommonTailKeepsDifference | src/sys/gfx.c:244-248 | so a collision of two chains never comes from commands that the frames have in common at the end |
| Caching.RepeatedFrameExactly | src/sys/gfx.c:80-81 | a frame shown twice in a row changes no cell the second time, except that the first frame of all changes every cell, being chained from another seed than all later ones |
| Frames.Frame | fs/user/microui.um:354-448 | a whole frame, from begin over the calls for any tree of containers to the reading loop: what is drawn are the containers of the tree, each once and in ascending z-order, and of each exactly its direct drawing (`Frames.OwnShapes`); a click brings the topmost container under the mouse to the front and leaves all other z-indices |
| Frames.Show | fs/user/microui.um:1167-1191 | the calls that show a tree of containers and drawing, at any depth of an open frame, take the context through the recording of the tree; the containers end in the order of the tree and those under the mouse are noted |
| Frames.BodiesAreOwn | fs/user/microui.um:1167-1191 | the bodies that the recording of a tree finishes are, in order, what its containers draw themselves |
| Frames.OwnShapes | fs/user/microui.um:634-640 | the direct drawing of a container: one command for each of the shapes in its window, with what the shape asked for, in order |
| Frames.OwnWindow | fs/user/microui.um:1167-1191 | the direct drawing of a container in a tree is that of the window it stands for, at whatever depth, and it is under the mouse if that window is |
| Frames.ClosingExactly | fs/user/microui.um:1181-1191 | the containers of a tree are exactly its windows, at whatever depth |
| Frames.InOrderParts | fs/user/microui.um:429-447 | what is drawn for a container stands between what is drawn for those before and behind it |
| Microui.Context.End | fs/user/microui.um:399-448 | for any recorded frame whose containers are all closed: walking the finished list from its start ends, having drawn the own commands of every root, the roots in strictly ascending order of z-index and each once; a click puts the hovered root last and changes no other z-index |
| Microui.Context.DrawFrame | fs/user/user.um:120-151 | the loop over nextCommand terminates and yields exactly those commands |
| Microui.Context.NextCommand | fs/user/microui.um:611-622 | the next drawing command of the walk ahead, or none at its end; the walk that remains gets shorter, which is why following backward jumps terminates |
| Microui.Context.Splice | fs/user/microui.um:429-447 | each root is directed to the next in z-order, the last one off the list, and nothing else changes |
| Microui.Context.SortRoots | fs/user/microui.um:426-427 | the root list becomes a sorted rearrangement of itself |
| Microui.Context.SortFinished | fs/user/microui.um:426-427 | the finished roots end up in strictly ascending order of their z-indices |
| Microui.Context.RaiseHovered | fs/user/microui.um:413-418 | after a click the hovered root is above all containers ever brought to the front; only its z-index changes, and not even that if it was on top already |
| Microui.Partition | fs/user/microui.um:371-386 | in place: the pivot ends where smaller containers lie before it and the others behind, within the old bounds, and the slice is rearranged |
| Microui.QSort | fs/user/microui.um:389-395 | the slice becomes sorted and is a rearrangement of what it was; slots outside it keep their containers |
| Microui.Context.BeginRootContainer | fs/user/microui.um:1167-1179 | begins a root inside the open ones, keeping every invariant of the recording; the hovered root stays the topmost of all roots under the mouse |
| Microui.Context.EndRootContainer | fs/user/microui.um:1181-1191 | ends the innermost root: its head jumps over its body, its tail is left loose, the roots outside it skip it |
| Microui.Context.Paint | fs/user/microui.um:634-640 | the command with what was asked for goes to the end of the list, and belongs to the innermost open root only |
| Microui.Context.BringToFront | fs/user/microui.um:569-572 | the container is above every other one ever brought to the front, whose z-indices stay and differ from one another; within a frame the hovered root stays the topmost one under the mouse |
| Recording.PlayOk | fs/user/microui.um:1167-1191 | recording any tree of nested roots keeps the invariant from which the list can be spliced and walked |
| Recording.Play | fs/user/microui.um:1167-1191 | each root of such a tree is finished with exactly its direct drawing, in order of closing; nested roots do not appear in their parents |
| Recording.SplicedWalk | fs/user/microui.um:429-447 | once spliced in any order, the list of a finished frame is walked root by root in that order and ends |
| Threading.ThreadedWalk | fs/user/microui.um:611-622 | walking a threaded list visits every body and tail once and draws the roots in the order of the thread |
| WordWrap.Text | fs/user/microui.um:839-864 | the lines put together again, with the single space or newline dropped after each, are the text; every line fits its width unless it is one word (perhaps behind one space), and ends at a space only where the next word would not have fitted |
| WordWrap.NextLine | fs/user/microui.um:847-857 | one line of these, with the width of the text up to any point accounted for word by word |
| WordWrap.WidthSplits | fs/user/microui.um:847-857 | the width of a text, split at any space or newline, is that of its two parts and of the separator |
| WordWrap.WidthOfWord | fs/user/microui.um:842-853 | and without one, that of the word measured at once |
| WordWrap.BrokenAtSpaces | fs/user/microui.um:842-860 | every line is a slice of the text without a newline, has a space or newline behind it, and fits or holds no space behind its first character |
| WordWrap.NextWordHasNoRoom | fs/user/microui.um:847-857 | a line that ends at a space would not have had room for the next word |
| ContainerPool.Pool.PoolInit | fs/user/microui.um:312-324 | the victim is the first of the slots whose last use is longest ago, and was not refreshed in this frame; it fails exactly if every slot was |
| ContainerPool.Pool.PoolGet | fs/user/microui.um:301-306 | the first slot with the id, or -1 if there is none |
| ContainerPool.Pool.GetContainer | fs/user/microui.um:541-562 | the slot with the id, refreshed unless it is closed and only an open one is wanted; else, unless only an open one is wanted, the least recently used slot for the id, or a refusal if every slot was refreshed in this frame; non-zero ids stay unique and every other slot keeps its state |
| ContainerPool.NewIdKeepsUnique | fs/user/microui.um:320-322 | giving a slot to an id that no slot has keeps the ids unique |
| Vfs.FileSystem.Alloc | src/mock_libc/vfs.c:47-66 | on the pointer tree: a new node behind the last sibling of its parent is exactly one new path in the file system, everything else unchanged |
| Vfs.FileSystem.Free | src/mock_libc/vfs.c:83-112 | the recursive free terminates and takes exactly the node and everything below it out of the tree; every other node stays where it was |
| Vfs.FileSystem.Unlink | src/mock_libc/vfs.c:84-100 | the search through the sibling chain redirects the one pointer that leads to the node |
| Vfs.FileSystem.GetPath | src/mock_libc/vfs.c:114-186 | finds the node that following the components leads to, with `..`, `.` and missing names as they are, or null |
| Vfs.FileSystem.Exists | src/mock_libc/vfs.c:188-188 | true exactly if the path resolves |
| Vfs.FileSystem.FindChild | src/mock_libc/vfs.c:165-176 | the walk along the siblings finds the child of a name, or null if the entry lists no such name |
| Vfs.FileSystem.Create | src/mock_libc/vfs.c:190-204 | on a clean path: the entry that is there, else a new one if its directory is there, else null and no change |
| Vfs.CreateMeans | src/mock_libc/vfs.c:190-204 | for a clean path: nothing changes if the path resolves or its directory does not; else one new empty entry is the last child of that directory, it is what the path now resolves to, and every other entry is as before |
| Vfs.FileSystem.Remove | src/mock_libc/vfs.c:322-331 | removes the entry and all below it, or returns -1 and changes nothing |
| Vfs.FileSystem.AppendData | src/mock_libc/vfs.c:77-81 | the bytes go behind the contents of this file; no other entry changes |
| Vfs.SplitPath | src/mock_libc/vfs.c:117-138 | the loop splits a path into its longest runs without a slash |
| Vfs.BasenameOf | src/mock_libc/vfs.c:37-45 | what follows the last slash |
| Vfs.VfsInit | src/mock_libc/vfs.c:208-214 | a well-formed tree: the root with the files $stdin, $stdout and $stderr, empty, in this order |
| NodeLayout.AppendedLaid | src/mock_libc/vfs.c:48-64 | the pointers after an append spell out the file system with one more entry |
| NodeLayout.UnlinkedLinked | src/mock_libc/vfs.c:84-100 | the pointers after an unlink spell out the file system without the name in its parent |
| NodeLayout.ReleasedLaid | src/mock_libc/vfs.c:102-111 | once its children are gone, dropping a detached node leaves a tree |
| FsModel.CreatedWellFormed | src/mock_libc/vfs.c:190-204 | creating adds exactly one path and keeps sibling names unique |
| FsModel.CreatedAdds | src/mock_libc/vfs.c:47-66 | the new entry is the last child of its parent, empty; every other entry stays as it is |
| FsModel.RemovedKeeps | src/mock_libc/vfs.c:83-112 | what stays are the entries not under the removed one, each with its contents, and with its children unless it is the parent |
| FsModel.RemovedFromDirectory | src/mock_libc/vfs.c:83-112 | the parent loses exactly this name, the others keeping their order |
| FsModel.RemovedWellFormed | src/mock_libc/vfs.c:83-112 | removing keeps the tree well-formed |
| FsModel.NormalPathsResolve | src/mock_libc/vfs.c:145-178 | a path of real names resolves to the entry it spells out if that exists, and to nothing otherwise: on these paths the tree is a map |
| FsModel.RemovedResolves | src/mock_libc/vfs.c:83-186 | for every path, with `..` or not, from every entry that stays: after a removal it resolves exactly if it resolved before and following it never passed through a removed entry, and then to the same entry |
| FsModel.CreatedExactly | src/mock_libc/vfs.c:190-204 | of the normal paths creating makes exactly the new one resolve |
| FsModel.CreatedKeepsResolving | src/mock_libc/vfs.c:190-204 | every path that resolved, normal or not, still resolves to the same entry |
| FsModel.RemovedExactly | src/mock_libc/vfs.c:322-331 | of the normal paths removing loses exactly those under the removed one |
| FsModel.RemovedAgrees | src/mock_libc/vfs.c:322-331 | whatever still resolves after a removal resolves to what it did before |
| FsModel.DetourIsLost | src/mock_libc/vfs.c:148-155 | so every path through the removed entry and out again by `..` is lost, wherever it leads |
| FsModel.OddNamesUnreachable | src/mock_libc/vfs.c:148-163 | an entry whose name is empty, `.` or `..` is reached by no path from elsewhere |
| FsModel.SplitAppend | src/mock_libc/vfs.c:117-138 | appending a slash and a name appends one component |
| FsModel.BasenameIsLast | src/mock_libc/vfs.c:37-45 | the last component is the basename unless the path ends on a slash |
| Streams.HookSeesTheFile | src/mock_libc/vfs.c:269-275 | for the only writer of a file, hooked at any time, and any series of writes: the chunks handed to the hook are together the contents of the file, which are the old ones and the parts in order |
| Streams.HookMissesNothing | src/mock_libc/vfs.c:307-320 | after writing something the hook has the whole file exactly if the position was at its end |
| Streams.SeekBackLosesChunks | src/mock_libc/vfs.c:269-320 | for any write: how much of the file the hook has, and so how much it misses after a seek back, since data goes to the end but is reported by position |
| Streams.ReadsReassemble | src/mock_libc/vfs.c:257-267 | reads of any sizes return consecutive pieces that reassemble the file, up to exactly the requested total or its end |
| Streams.ReadIsSafe | src/mock_libc/vfs.c:257-265 | a read stays inside the file exactly if the position is not behind its end or nothing is asked for, since the rest is an unsigned difference |
| Streams.RoundTrip | src/mock_libc/vfs.c:257-275 | chunks, file contents and what is read back from 0 are all the same |
| Streams.Stream.Read | src/mock_libc/vfs.c:257-267 | returns the bytes at the position, as many as asked for and present, and advances |
| Streams.Stream.Write | src/mock_libc/vfs.c:269-275 | appends to the file wherever the position is, advances it and flushes |
| Streams.Stream.Flush | src/mock_libc/vfs.c:307-320 | hands the hook the bytes from the flush index to the position |
| Streams.Stream.HookFlush | src/mock_libc/vfs.c:298-305 | hooking a stream that has written the whole file keeps it one from which the hook misses nothing |
| Streams.Stream.Seek | src/mock_libc/vfs.c:277-286 | arrives at the offset, the position plus the offset, or the size plus the offset modulo 2^32; for every signed offset passed as an unsigned number this is the origin plus the offset, if there is such a position |
| Streams.SeeksBy | src/mock_libc/vfs.c:277-286 | and exactly then |
| Streams.SeekBackRereads | src/mock_libc/vfs.c:257-286 | a relative seek back over what was read makes the same reads return the same parts |
| Streams.SeekReadsTail | src/mock_libc/vfs.c:257-286 | a seek to n bytes before the end and sufficient reads of any sizes return the last n bytes |
| Streams.Stream.Eof | src/mock_libc/vfs.c:293-296 | within the file it holds exactly if no reads of any sizes would return anything; behind the end it holds although every read would go on |
| Streams.Open | src/mock_libc/vfs.c:216-249 | a mode with the byte 97 is refused; without 119 the file system stays as it was, the path as it resolved is opened, and reads from 0 of any sizes reassemble what the entry held; with 119 the file is there and empty; the contents of all other entries stay |
| Streams.OpenMeans | src/mock_libc/vfs.c:216-249 | which entry is opened, and what opening does to the contents of this entry and of the others, for reading and for writing |
| Loader.Boot | src/sys/main.c:57-61 | for every encodable tree: booting from its image gives a file system that holds the tree under the root, behind the standard files, in the same child order and with the same contents |
| Loader.LoadVfsImage | src/sys/main.c:10-45 | the recursive parser reads exactly what was printed for a directory and adds exactly its tree to the entry |
| Loader.LoadFile | src/sys/main.c:26-37 | a file record becomes one file with its contents |
| ImageFormat.Mkfs.EncodeDir | mkfs.py:23-40 | the recursive printer appends the encoding of the directory to the image |
| ImageFormat.FileRecord | mkfs.py:33-39 | a file in the image: the letter f, the name, a zero, four bytes of size, the lowest first, and the contents |
| ImageFormat.DirRecord | mkfs.py:26-32 | a directory in the image: the letter d, the name, a zero, what it holds, and the letter p |
| ImageFormat.LoadedHolds | src/sys/main.c:10-45 | loading keeps the tree well-formed, adds the items in order, and changes nothing outside the entry |
| ImageFormat.HeldOnce | src/sys/main.c:10-45 | the file system determines the loaded tree up to that |
| ImageFormat.LoadedAlike | src/sys/main.c:10-45 | two encodable trees load to the same file system exactly if they differ only in empty directories in place of empty files |
| ImageFormat.Le32Undone | mkfs.py:38 | a size survives its four bytes exactly if it is below 2^32 |
| ImageFormat.LoadedKeepsResolving | src/sys/main.c:22-24 | loading keeps every path that resolved, so that the parser can address directories by path |
| Alloc.Allocator.Alloc | src/mock_libc/alloc.c:52-85 | the first free block that is large enough, or else a new block behind the tail, and only then does the arena grow; the pointer is 16 bytes behind a header with the magic number and the size; blocks tile the arena, the free list stays acyclic and duplicate-free, and no payload changes |
| Alloc.Allocator.KeptExactly | src/mock_libc/alloc.c:52-96 | that payloads are kept means every cell behind the sixteen of a header |
| Alloc.Allocator.Free | src/mock_libc/alloc.c:87-96 | the block moves from the live to the free ones, in front of the list; no payload changes; releasing null does nothing |
| Alloc.Allocator.Realloc | src/mock_libc/alloc.c:32-50 | keeps the whole old payload, cell by cell behind the new pointer, and every other live payload; the pointer stays the same exactly if the old capacity suffices |
| Alloc.Allocator.FindFit | src/mock_libc/alloc.c:53-64 | the walk along the free list finds the first fit and its predecessor, or null |
| Alloc.Allocator.constructor | src/mock_libc/alloc.c:25-30 | an arena with an empty sentinel only |
| Alloc.Allocator.Store | src/mock_libc/alloc.c:44-46 | a write inside a live block disturbs no header, no list and no other block |
| Arena.TilesCover | src/mock_libc/alloc.c:76-84 | every address from the start to the end of the tail lies in exactly one block |
| Arena.BlocksApart | src/mock_libc/alloc.c:76-84 | two blocks are equal or share no byte |
| Arena.FirstFit | src/mock_libc/alloc.c:56-64 | no block before the first fit is large enough, and it is |
| Arena.Unlinked | src/mock_libc/alloc.c:65-70 | skipping a node in its predecessor leaves the list of the others |
| Arena.Extended | src/mock_libc/alloc.c:76-84 | a header behind the tail extends the tiling by one block |
| Arena.PayloadWritten | src/mock_libc/alloc.c:44-46 | writing inside one live payload keeps the whole heap invariant |
| Arith.DivMod | src/mock_libc/arith.c:174-220 | for all 64-bit a and non-zero b: a is quotient times b plus remainder, the remainder below b; they are the mathematical quotient and remainder |
| Arith.LongDivision | src/mock_libc/arith.c:202-219 | the same for the branch-free loop, which relies on the leading zeros and on a comparison that wraps around |
| Arith.SignTest | src/mock_libc/arith.c:212-214 | the sign of the wrapped difference tells whether the divisor fits, within the bound the loop keeps |
| Arith.DivisionStarts | src/mock_libc/arith.c:203-207 | the shift counts lie between 1 and 63 and establish the loop invariant |
| Arith.Round | src/mock_libc/arith.c:208-216 | one round keeps it, also for divisors of 2^63 and more |
| Arith.Clz | src/mock_libc/arith.c:112-130 | the number of leading zeros of a non-zero word |
| SignedArith.Ctz | src/mock_libc/arith.c:151-169 | the number of trailing zeros of a non-zero word |
| SignedArith.Ffs | src/mock_libc/arith.c:230 | one more than that, and 0 for 0 |
| SignedArith.Divdi3 | src/mock_libc/arith.c:223-226 | the truncated quotient, exactly unless the smallest number is divided by -1, where it wraps to the smallest number |
| SignedArith.Moddi3 | src/mock_libc/arith.c:249-253 | the truncated remainder for every pair of operands |
| SignedArith.TruncDivision | src/mock_libc/arith.c:222-253 | truncated quotient and remainder reassemble the dividend; the remainder has the dividend's sign and is smaller than the divisor |
| SignedArith.Udivdi3 | src/mock_libc/arith.c:279-281 | the unsigned quotient |
| SignedArith.Umoddi3 | src/mock_libc/arith.c:284-288 | the unsigned remainder |
| SignedArith.Lshr | src/mock_libc/arith.c:233-246 | the logical right shift, from two halves, by the count modulo 64 |
| SignedArith.Ashr | src/mock_libc/arith.c:78-91 | the quotient by the power of two rounded down, also for negative numbers |
| SignedArith.Ashl | src/mock_libc/arith.c:62-75 | the left shift modulo 2^64 |
| Popcount.Popcountsi2 | src/mock_libc/arith.c:256-264 | the number of set bits of a 32-bit word; no step wraps around |
| Popcount.Popcountdi2 | src/mock_libc/arith.c:267-276 | the number of set bits of a 64-bit word; no step wraps around |
| Popcount.PairsCounted | src/mock_libc/arith.c:258 | subtracting the odd bits leaves in every pair of bits their number |
| Popcount.NibblesCounted | src/mock_libc/arith.c:259 | masked neighbours add up without a carry |
| Popcount.BytesCounted | src/mock_libc/arith.c:260 | unmasked neighbours add up without a carry because each is at most 4 |
| Printf.Vsnprintf | src/mock_libc/mock_libc.c:332-337 | for any directives and any buffer size: the count is that of the whole output; a buffer of positive size holds the longest prefix that leaves room for the terminator, the terminator, and otherwise its old contents; with an empty format or size 0 nothing is written |
| Printf.Fmtvprintf | src/mock_libc/fmt.c:427-428 | the writer is given exactly the rendering of the directives and the total is returned whatever fitted |
| NumberIO.Writer.Write | src/mock_libc/fmt.c:26-43 | a bounded buffer keeps holding the longest prefix of all that was written, with its terminator |
| Printf.PrintNumber | src/mock_libc/fmt.c:716-784 | the three branches write spaces, prefix, zeros, number, spaces in the amounts that flags, width and precision give |
| Printf.FieldPlaces | src/mock_libc/fmt.c:716-784 | what stands where in a field, for every flag: prefix, zeros, number and spaces, with the number unchanged |
| Printf.NumberPlaces | src/mock_libc/fmt.c:698-706 | the number in a field stands for the argument and has letters of one case only |
| Printf.SignedPlaces | src/mock_libc/fmt.c:698-709 | a signed number is in decimal, the digits of its magnitude behind at most one sign character, which is the one its sign and the flags ask for |
| Printf.TextPlaces | src/mock_libc/fmt.c:647-664 | a string is cut at the precision and padded with spaces on the side that the flag says |
| Printf.OneCharacter | src/mock_libc/fmt.c:619-645 | a literal is itself; a character and a percent sign are fields of one |
| Printf.RenderParts | src/mock_libc/fmt.c:427-428 | directives are rendered one behind the other |
| Printf.FieldLength | src/mock_libc/fmt.c:716-784 | the field is as long as the width or the number needs, exactly except on the right with a precision between 0 and the length of the number and room to spare |
| Printf.OverlongField | src/mock_libc/fmt.c:752-754 | the length in the exceptional case |
| Printf.UnsignedFieldRoundTrip | src/mock_libc/fmt.c:716-784 | for any value, base 8, 10 or 16, flags, width and precision, and whatever follows: reading the field returns the value and takes exactly its spaces and numeral |
| Printf.SignedFieldRoundTrip | src/mock_libc/fmt.c:716-784 | a signed field reads back as its number exactly if no padding zero stands before a sign character or the number is 0 |
| NumberIO.SignedRoundTrip | src/mock_libc/fmt.c:172-184 | parsing undoes printing for every signed 64-bit number, any base from 2 to 16 and any sign flags, the smallest number included |
| NumberIO.StringifyULL | src/mock_libc/fmt.c:359-374 | the digits filled in backwards are the digits of the number, letters in the case asked for |
| NumberIO.FillDigits | src/mock_libc/fmt.c:360-371 | the fill stays inside its 64 bytes if there are at most 62 digits |
| NumberIO.DigitBufferHolds | src/mock_libc/fmt.c:360-371 | that is exactly for bases above 2, and in base 2 for numbers below 2^62 |
| NumberIO.StringifyLL | src/mock_libc/fmt.c:376-388 | sign character and digits of the magnitude, also for the smallest number |
| NumberIO.SignCharacter | src/mock_libc/fmt.c:376-386 | a minus sign for negative numbers only; else a plus sign if asked for, else a space if asked for |
| NumberIO.ParseNum | src/mock_libc/fmt.c:128-159 | the value of the longest numeral modulo 2^64, its prefix selecting the base if that is 0, and exactly its characters taken |
| NumberIO.ParseULL | src/mock_libc/fmt.c:161-170 | the same behind spaces and a plus sign |
| NumberIO.PlusSkipped | src/mock_libc/fmt.c:161-184 | a plus sign in front is taken and changes nothing, for both parsers |
| NumberIO.ParseLL | src/mock_libc/fmt.c:172-184 | the same behind spaces and a sign, negated modulo 2^64 |
| NumberIO.Reader.Peek | src/mock_libc/fmt.c:45-55 | copies what follows without taking it |
| NumberIO.Reader.Read | src/mock_libc/fmt.c:59-69 | takes what it copies |
| Numerals.DigitsAreRight | src/mock_libc/fmt.c:368-371 | the digits of a number stand for it |
| Numerals.LetterCase | src/mock_libc/fmt.c:368-371 | a digit from 10 is a letter from A to F exactly if capitals are asked for, else one from a to f |
| Numerals.DigitsCase | src/mock_libc/fmt.c:368-371 | so a number contains no letter of the other case |
| Numerals.IsDigitExactly | src/mock_libc/fmt.c:120-150 | which characters are digits of a base, by the ten figures and the letters of either case |
| Numerals.PrefixTellsBase | src/mock_libc/fmt.c:133-145 | which base a prefix selects |
| Numerals.DigitCount | src/mock_libc/fmt.c:368-371 | a number has at most k digits exactly if it is below the k-th power of the base |
| Numerals.ParsePrefixed | src/mock_libc/fmt.c:133-145 | a numeral behind the prefix of its base, with any zeros, parses with base 0 to its number |
| Interrupts.NothingLostOrDoubled | src/sys/umka.c:321-382 | in every run, with interrupts between any two steps of the scheduler: the accepted packets are those gone through, then the rest of the local copy, then the queue, in order |
| Interrupts.DroppedExactly | src/sys/umka.c:321-342 | input is dropped exactly if the interrupt lands while the scheduler holds the lock, or its number is neither 12 nor 1; the handler panics exactly if otherwise 128 packets are queued or the packet has more than 128 bytes |
| Interrupts.PassDeliversAll | src/sys/umka.c:354-378 | when a pass ends, everything accepted before it took the lock has been gone through |
| Interrupts.AllAccepted | src/sys/umka.c:321-333 | a run that drops nothing accepts all input, in order |
| Interrupts.SchedKeepsInv | src/sys/umka.c:354-378 | every scheduler step keeps the invariant, the copying slot by slot included |
| Interrupts.IrqKeepsInv | src/sys/umka.c:321-348 | an interrupt keeps it wherever it lands |
| Interrupts.Kernel.HandleIRQ | src/sys/umka.c:295-348 | the handler on the packet array is the atomic step of the protocol, panics included |
| Interrupts.Kernel.Schedule | src/sys/umka.c:350-382 | the scheduler with interrupts between its steps performs such a run, and a pass that ends has gone through all that was accepted before it; for every interrupt number the bytes handed to the kernel are those of the packets gone through, in order, and each packet with bytes is handed over as often as it was gone through, no empty one ever |
| Interrupts.NoByteLeftOut | src/sys/umka.c:361-371 | skipping empty packets leaves out no byte of any interrupt number |
| Interrupts.PacketsKept | src/sys/umka.c:361-371 | every packet with bytes is handed over as often as it was taken, and no empty one |
| Interrupts.PacketPlaces | src/sys/umka.c:361-371 | and in the same order: its place is the number of packets with bytes before it |
| Mouse.EventsDecoded | fs/kernel/input.um:90-125 | decoding undoes encoding for every list of reportable events |
| Mouse.DecodedExactly | fs/kernel/input.um:104-120 | movement and buttons of an event bit by bit: nine-bit movements in two's complement, the sign bits and the buttons from the first byte |
| Mouse.ExpectedExactly | fs/kernel/input.um:95-118 | the first byte of an event is taken if its bit 3 is set, the last if the first had no overflow bit |
| Mouse.ReportableExactly | fs/kernel/input.um:107-116 | the events that can be reported are exactly those that three bytes can mean |
| Mouse.PrefixDecoded | fs/kernel/input.um:90-125 | after any part of the bytes exactly the complete events have been decoded |
| Mouse.FeedInParts | fs/kernel/input.um:90-93 | how the bytes are cut does not matter |
| Mouse.Input.HandleMouseIrq | fs/kernel/input.um:90-125 | the loop performs the decoding byte by byte |
| Mouse.Input.Relay | fs/kernel/input.um:144-150 | passes the decoded events on, in order, and keeps none |
| InputPath.MouseEventsArrive | src/sys/umka.c:354-378 | end to end: without drops or overflows the kernel decodes exactly the events whose bytes it was handed, in order, and all of them once nothing is queued |
| InputPath.RelayConserves | fs/kernel/input.um:138-150 | no event is lost or passed on twice, however interrupts and relays interleave |
| Blackjack.Game.DrawCard | fs/user/blackjack.um:166-177 | hand and stash stay together exactly the deck, so a draw always finds a card; a reshuffle happens only when the hand is empty |
| Blackjack.Game.Shuffle | fs/user/blackjack.um:68-73 | the swaps that the random numbers give (`Blackjack.ShuffledFurther`); whatever they are, the hand is rearranged |
| Blackjack.ShuffledFurther | fs/user/blackjack.um:68-73 | each random number picks one of all the places, and the next card changes places with the card there |
| Blackjack.AnyCardFirst | fs/user/blackjack.um:68-73 | a shuffle can put any card first |
| Blackjack.Game.DrawRound | fs/user/blackjack.um:180-192 | two cards each, alternating, from the front of the hand; none of them has gone back into the hand exactly if there were no cards or at least four |
| Blackjack.Game.Hit | fs/user/blackjack.um:267-269 | the drawn card is added to the player's; the table stays apart from the hand exactly if it was and the hand was not empty |
| Blackjack.Game.TableDistinct | fs/user/blackjack.um:166-192 | as long as none of the cards on the table has been shuffled back into the hand, they are all different |
| Blackjack.Game.RepeatsExactly | fs/user/blackjack.um:166-177 | and there are random numbers for which the next card is one of those on the table exactly if the hand is empty, so that it is reshuffled |
| Blackjack.Game.Stand | fs/user/blackjack.um:257-265 | the recursion terminates; the dealer draws until the hand is worth 17 and never once it is; the table stays apart from the hand exactly if it was and the hand sufficed |
| Blackjack.GenerateDeck | fs/user/blackjack.um:54-66 | hearts, diamonds, clubs and spades, each from ace to king |
| Blackjack.DeckHasEachCardOnce | fs/user/blackjack.um:54-66 | every card is in the deck in exactly one place |
| Blackjack.GetValues | fs/user/blackjack.um:123-164 | the values of the cards add up to the worth of the hand; other cards count their pips, court cards 10, an ace 1, 10 or 11; a hand without aces is worth the sum of its pips |
| Blackjack.PointsArePips | fs/user/blackjack.um:127-146 | every card but the ace counts its place in its suit, but at most 10 |
| Blackjack.WorthOfPips | fs/user/blackjack.um:123-164 | what a hand is worth in pips and aces |
| Blackjack.TotalInClosedForm | fs/user/blackjack.um:148-161 | the worth in terms of the sum of the other cards and the number of aces |
| Blackjack.TotalDropsExactly | fs/user/blackjack.um:123-164 | a further card lowers the worth of a hand exactly in these cases |
| Blackjack.DroppingHand | fs/user/blackjack.um:123-164 | an ace and a five are worth 15, with an eight 14 |
| Blackjack.TotalAtLeastSize | fs/user/blackjack.um:123-164 | every card counts at least 1 |
| Blackjack.StatusAgreesWithWinner | fs/user/blackjack.um:211-308 | once the game is over and the dealer's card is shown, the status shown agrees with who is paid |
| Blackjack.Game.DetermineStatus | fs/user/blackjack.um:211-255 | the one status whose own condition holds, conditions that are stated without regard to the order in which the code tests them; among them: a blackjack is two cards worth 21 against less than 21, a bust more than 21 and not a draw |
| Blackjack.Game.WhoWon | fs/user/blackjack.um:271-308 | the side with the better hand that is not bust; equal worths are a draw, also over 21; whoever forfeits loses |

## Left out

- Vfs.FileSystem.Create: the path must be clean where an entry is made; otherwise the code makes an entry that no path reaches (`FsModel.OddNamesUnreachable`).
- Vfs.FileSystem.GetPath: paths have at most 32 components, as the array of the source does.
- Vfs.FileSystem.Remove: the path must not lead to the root, whose node would be freed while still in use.
- Streams.Stream.Write: sizes and positions stay below 2^32, and a hooked stream is not positioned behind the end of its file, where a flush would read past it.
- Streams.Stream.Read: the position is not behind the end of the file unless nothing is asked for (`Streams.ReadIsSafe` says what happens otherwise).
- Loader.LoadVfsImage: images that were not printed by the encoder, for which the code halts or runs past the end.
- NumberIO.StringifyULL: at most 62 digits (`NumberIO.DigitBufferHolds` says when); more would be written in front of the buffer.
- NumberIO.ParseNum: the numeral ends within the 64 characters that the code looks at, and the character behind it indexes the digit table.
- Mouse.Input.HandleMouseIrq: bytes out of step and packets with an overflow bit, because what `break` leaves inside an Umka `switch` is not visible in the repository.
- Alloc.Allocator.Alloc: the arena must have room for a new block where one is needed; the code does not check.
- ContainerPool.Pool.GetContainer: the fields of a fresh container other than its open flag, and its being brought to the front, are not modelled.
- Microui.Context.BeginRootContainer: containers that were never brought to the front, which `getContainer` does not hand out, and `openPopup`, which makes a container the hovered one without testing the mouse position, are not modelled. The clip stack is not modelled, and the mouse position comes in as the outcome of the test against the rectangle.
- Frames.Frame: the containers have been brought to the front before the frame; `Microui.Context.BringToFront` keeps the invariants when one is within it, as `getContainer` does for a new container.
- Printf.Fmtvprintf: the precision of a string is at least -1; a smaller one, from a negative `*` argument, is passed to the writer as a size. The directives come parsed, with their arguments fetched; `%n` and floating point are not modelled.
- Interrupts.Kernel.Schedule: the calls into the interpreter are recorded, not performed, and always return.
- Renderer.Gfx.Swap: frames that leave pixels of a redrawn region unpainted, which show what is left in the backbuffer.
- Floating point: `fmtParseD`, `fmtStringifyD` and the mathematical library have no exact specification here.
- The `scanf` driver, number parsing from files, and the small string functions of the C library.
- The 32-bit `__clzsi2` and `__ctzsi2`, which are the 64-bit searches with one step less.
- Layout, styling and widgets of the user interface; drawing through the clip stack.
- The Umka compiler and interpreter, port input and output, and the set-up of interrupt controllers: hardware, or code that is not in the repository.
- The bets, the insurance and the window of the card game.
