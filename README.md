# String-reuse provenance core, modelled in Dafny

This project models the core of a text-provenance visualiser.

- A **rope** is a list of borrowed views into immutable text buffers. Slicing and substituting re-borrow characters instead of copying them, so every character that survives keeps its physical identity.
- A **relation** records, in a forward and an inverse index, which character identities of an input a black-box transformation's output came from.
- An **arena** is an append-only store whose indices stay valid for ever.

The program identifies a character by the raw address of its first byte. Here a buffer is `Buffer(id, text)`, a borrowed `&str` is a `View` of `(buffer, lo, hi)`, and a character's identity is `Addr(buffer id, index)` (`views.dfy`). The loops that build ropes or fill the relation are Dafny methods: `Ropes.Slice` (`slice`), `Ropes.ReplaceAll` (`re_replaces`), `Ropes.Addrs` (`addrs`), `Relations.StrAddrs` (`str_addrs`) and `Relations.Relation.AddOneToMany`, `AddManyToOne` and `AddManyToMany` (`add_1_n`, `add_n_1`, `add_n_n`). Their loop invariants prove each equal to a specification function. The write loop of `Display` only concatenates the fragments' text, and it is the recursive function `Ropes.Flatten`. What the program promises is then proved about these functions: text and identities of slices, substitutions and indentation, and the mirror invariant of the relation.

Files:

- `options.dfy`: the `Option` type.
- `views.dfy`: buffers, views, identities.
- `rope.dfy`: `src/rope.rs`.
- `relation.dfy`: `src/relation.rs`.
- `arena.dfy`: `src/arena.rs`.

Two details of the code, kept as written:

- `re_replaces` appends the tail slice only when the cursor is short of the end (src/rope.rs:101-103). The text is the same either way.
- `re_replace` always appends its tail slice (src/rope.rs:86).

## Model

| member | source | states |
|---|---|---|
| Views.Whole | src/rope.rs:135-139 | the view of a whole buffer shows exactly the buffer's text, with one identity per buffer position |
| Views.Sub | src/rope.rs:38-40 | re-borrowing `&v[a..b]` gives a sub-view of the same storage, `b - a` characters wide |
| Views.SubParts | src/rope.rs:38-40 | a re-borrowed part shows the characters `a..b` of the view, with the same identities |
| Views.IdsIncrease | src/relation.rs:54-62 | the identities of a view strictly increase; the k-th names the buffer position of the k-th character |
| Ropes.New | src/rope.rs:14-16 | a new rope has length 0, is empty and has no identities |
| Ropes.FromStr | src/rope.rs:135-139 | a rope made from a view has that view's text, identities and length |
| Ropes.Append | src/rope.rs:18-20 | appending keeps the existing fragments as a prefix; the text and identities are the concatenations |
| Ropes.Len | src/rope.rs:45-47 | the length is the number of characters of the flattened text and of identities |
| Ropes.IsEmpty | src/rope.rs:49-52 | empty exactly when the flattened text is empty |
| Ropes.Flatten | src/rope.rs:141-148 | the displayed text has the sum of the fragment lengths as its length |
| Ropes.FragmentIdentities | src/rope.rs:116-126 | fragment i occupies the flattened positions after the fragments before it, with its own text and identities there; inside it identities strictly increase |
| Ropes.SliceOf | src/rope.rs:22-43 | for start <= end, the slice has text and identities `flat[min(start,len)..min(end,len)]` and length `min(end,len) - min(start,len)` |
| Ropes.SliceFromText | src/rope.rs:29-41 | the fragments the loop emits from any fragment onward are the clamped part of those fragments' text and identities |
| Ropes.SliceFromPast | src/rope.rs:35-37 | once the fragments start at or after `end`, nothing more is emitted |
| Ropes.SliceBorrows | src/rope.rs:38-40 | every fragment of a slice is a sub-view of a fragment of the rope: nothing is copied |
| Ropes.Slice | src/rope.rs:22-43 | the loop (skip, stop, clip-and-push) returns exactly the slice specified by `SliceOf` |
| Ropes.SliceAll | src/rope.rs:22-43 | `slice(0..len)` has the rope's text and identities |
| Ropes.SliceSplit | src/rope.rs:22-43 | for i <= j <= k, `slice(i..j) ++ slice(j..k)` has the text and identities of `slice(i..k)` |
| Ropes.ReplaceFirst | src/rope.rs:81-91 | with no match the rope is returned unchanged; with a match `[s,e)` the text is `flat[..s] ++ repl ++ flat[e..]`, and identities likewise |
| Ropes.ReplaceFirstIsReplaceOne | src/rope.rs:81-105 | `re_replace` on a match has the text and identities of `re_replaces` on that single match |
| Ropes.SubstitutedFrom | src/rope.rs:93-105 | every element of a substitution comes from the text or from the replacement |
| Ropes.ReplaceFromText | src/rope.rs:93-105 | over ordered, non-overlapping matches the text is `flat[0..m1.start] ++ repl ++ flat[m1.end..m2.start] ++ repl ++ … ++ flat[last.end..]` |
| Ropes.ReplaceFromIds | src/rope.rs:93-105 | the identities are substituted the same way: kept characters keep their identities, matches get the replacement's |
| Ropes.ReplaceNothing | src/rope.rs:93-105 | with no match the text and identities are unchanged |
| Ropes.ReplaceKeepsIdentities | src/rope.rs:93-105 | every identity of the result is one of the rope's or of the replacement's: none is made up |
| Ropes.ReplaceAll | src/rope.rs:93-105 | the cursor loop returns exactly the rope specified by `ReplaceFrom` |
| Ropes.ReplaceFirstDot | src/rope.rs:81-91 | replacing the match `[2,3)` of any rope reading `ab.cd` by one reading `??` reads `ab??cd` |
| Ropes.ReplaceAllDots | src/rope.rs:93-105 | replacing the matches `[1,2)` and `[3,4)` of any rope reading `a.b.c` by one reading `??` reads `a??b??c` |
| Ropes.ReSlice | src/rope.rs:70-72 | `Some` exactly when there is a match; then the text and identities of the matched part |
| Ropes.ReSlices | src/rope.rs:74-79 | one rope per match, each with the matched part's text and identities |
| Ropes.NewlinesFrom | src/rope.rs:109-112 | the matches of `\n` are ordered, one character long, in the text, and each covers a newline; every newline is matched |
| Ropes.NewlinesReindent | src/rope.rs:107-114 | replacing every newline by newline-plus-indent is inserting the indent after every newline |
| Ropes.SubstitutedShift | src/rope.rs:93-105 | starting the substitution one character earlier, before the first match, puts that character in front |
| Ropes.Indent | src/rope.rs:107-114 | the text is `ind ++ (flat with every '\n' followed by ind)`; kept characters keep their identities |
| Ropes.IndentTwoLines | src/rope.rs:107-114 | indenting `x\ny` by two spaces gives `  x\n  y` |
| Ropes.Addrs | src/rope.rs:116-126 | the nested loop lists exactly the rope's identities in flattened order, one per character |
| Relations.Insert | src/relation.rs:11-12 | after inserting `(a, b)`, `b` is in `a`'s set; no other key's entry changes |
| Relations.InsertIsExtend | src/relation.rs:10-13 | one `add` on an index is the bulk extension by the single pair |
| Relations.ExtendEdges | src/relation.rs:27-33 | the pairs after a bulk extension are the old pairs plus `srcs × dsts`: none is removed |
| Relations.ExtendKeepsEntries | src/relation.rs:11-12 | entries are never removed, and no identity leaves an entry |
| Relations.ExtendKeepsMirror | src/relation.rs:10-13 | extending `rel` by `srcs × dsts` and `inv` by `dsts × srcs` keeps `b ∈ rel[a] ⇔ a ∈ inv[b]` and creates no empty entry |
| Relations.SingleSideIsProduct | src/relation.rs:15-33 | `add_1_n(a, bs)` is `add_n_n([a], bs)` and `add_n_1(as, b)` is `add_n_n(as, [b])` |
| Relations.InsertIdempotent | src/relation.rs:11-12 | adding an edge that is already there leaves the index unchanged |
| Relations.EdgesDetermine | src/relation.rs:3-7 | an index without empty entries is determined by the pairs it holds |
| Relations.MirrorInverse | src/relation.rs:43-45 | in mirrored indexes, `inv[b]` lists exactly the `a` with `(a, b)` recorded in `rel` |
| Relations.StrAddrs | src/relation.rs:54-62 | one address per character of the view, the view's identities, strictly increasing |
| Relations.Relation.constructor | src/relation.rs:3-7 | both indexes start empty and consistent |
| Relations.Relation.Add | src/relation.rs:10-13 | `rel` gains `a → b` and `inv` gains `b → a`; the consistency invariant is kept |
| Relations.Relation.AddOneToMany | src/relation.rs:15-19 | `a` is related to every identity of `bs`, in both indexes; the invariant is kept |
| Relations.Relation.AddManyToOne | src/relation.rs:21-25 | every identity of `as` is related to `b`, in both indexes; the invariant is kept |
| Relations.Relation.AddManyToMany | src/relation.rs:27-33 | both indexes gain exactly the product `as × bs`; the invariant is kept |
| Relations.Relation.AddStrStr | src/relation.rs:35-37 | every character of the first view is related to every character of the second |
| Relations.Relation.Rel | src/relation.rs:39-41 | `Some` exactly when `a` has an entry, holding exactly the identities `a` is related to; `None` exactly when `a` has no recorded pair |
| Relations.Relation.Inv | src/relation.rs:43-45 | `None` exactly when `b` has no recorded pair; otherwise exactly the identities related to `b` |
| Relations.Relation.Track | src/relation.rs:47-51 | returns exactly `f(s)` in new storage, whose identities are all different from those of `s`, and relates every identity of `s` to every identity of the result |
| Arenas.Arena.constructor | src/arena.rs:1-4 | a new arena holds nothing |
| Arenas.Arena.Allocate | src/arena.rs:7-10 | returns the former length; the value is pushed and can be read back at that index; earlier values are unchanged |
| Arenas.Arena.Get | src/arena.rs:12-14 | `None` exactly when the index is at or past the number of allocations; otherwise the value stored there |
| Arenas.AllocateTwo | src/arena.rs:7-14 | two allocations in a fresh arena return 0 and 1, both read back, and index 2 is free |

## Left out

- The regular-expression engine (`Regex::find`, `Regex::find_iter`, src/rope.rs:55, 62). `re_range` and `re_ranges` are not modelled. Their results are parameters instead: an `Option<Range>`, or a list of ranges that are in order, non-overlapping and inside the text. Only the newline pattern of `indent` is computed (`NewlinesFrom`).
- Raw pointer addresses and their arithmetic (`as_ptr() as usize`, `addr += c.len_utf8()`). They are replaced by `(buffer id, index)` identities.
- UTF-8 widths. Every character has width one, so `len()` counts characters, and slicing inside a multi-byte character (a panic in the source) cannot happen.
- Ropes.Slice: requires `start <= end`. With `start > end` the source panics only when the range reaches a fragment, and that panic is not modelled.
- Ropes.Append: the in-place `self.data.extend` is modelled as a function returning the extended rope, which the caller reassigns. Ropes are owned values and never shared in the source, so nothing aliases.
- Ropes.Indent: the `"\n"` literal's storage is a parameter `nl`, a view whose text is a newline.
- Relations.Relation.Track: the storage of the new string `f(s)` is named by a parameter `outId`, which must differ from the buffer id of `s` because `f(s)` is a newly allocated `String`. `f` is a total function on texts.
- Distinct storage: buffer ids stand for allocations, but the model does not keep ids distinct across the program. Two `Buffer` values with the same id are the same storage by convention, and a caller that allocates supplies a fresh id.
- Lifetimes, `Clone` and `Default` derivations, and the `fmt::Result` plumbing of `Display`. `Display` is the `Flatten` function.
- `src/main.rs` is not part of this model: terminal set-up, event handling, rendering and the demo transformations are user interface and I/O.
