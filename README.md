# ImageNet synset helpers in Dafny

This project models the two small pieces of logic at the heart of the
repository's ImageNet data preparation:

- **Hyponym enumeration** (`synset_testing.py`). `get_all_hyponyms(synset, depth)`
  walks the WordNet hierarchy below a synset. For every direct hyponym, in the
  order the lexical database returns them, it appends the hyponym's wnid
  (`n` followed by its offset zero-padded to eight digits) and then,
  recursively, everything below that hyponym. The model is the module
  `SynsetTesting`: the hierarchy is an inductive `Synset` value (offset plus
  ordered children), the function itself is the method `GetAllHyponyms` with
  the same loop, and it is proved equal to the pre-order of the hierarchy
  without its root, mapped to wnids. The wnid format is the module
  `DecimalFormat` (Python's `"{:08d}"` on a non-negative integer).
- **Synset mapping parse** (`preprocess_imagenet.py`). The module-level loop
  reads `LOC_synset_mapping.txt` line by line and fills the dictionary `data`:
  strip the line, split it on single spaces, take the first token as the class
  id, glue the remaining tokens together with no separator into the synset text,
  split that on commas, strip each piece, and store the first piece as the
  class name and the rest as synonyms. The model is the module
  `PreprocessImagenet` (one line is `ParseLine`; the loop is the method
  `BuildMapping`, proved equal to a left fold of dictionary updates). The
  Python string operations it relies on (`strip()`, `split(sep)` and
  `"".join`, the last as `Concat`) are the module `PyStrings`, together with
  `sep.join` (`Join`), which the parser does not call: it is the inverse
  through which `JoinOfSplit` shows that `split` loses nothing.

Several generic lemmas are stated over an arbitrary identifier function
`ident: nat -> T` rather than `Wnid` alone. With `ident := Wnid` they speak
of exactly what `get_all_hyponyms` returns (`AllHyponyms(s)` is
`Walk(s, |s.hyponyms|, Wnid)` by definition).

Behaviour of the code that the model keeps as written:

- `"n{:08d}".format(offset)` pads to *at least* eight digits and never
  truncates. `WnidLength` proves both halves: nine characters below 10^8, and
  the full decimal spelling from 10^8 upwards.
- `get_all_hyponyms` raises no error of its own, has no cycle guard and does
  not deduplicate, so a synset reached along two paths is listed twice.
  Uniqueness holds only when offsets do not repeat below the root
  (`HyponymsDistinct`); the root's own wnid is absent whenever the root's
  offset does not recur below it, even with multiple inheritance
  (`RootNotEmitted`).
- `"".join(parsed[1:])` deletes the spaces inside multi-word class names
  ("tench, Tinca tinca" is stored as "tench,Tincatinca", synonym
  "Tincatinca"). The model keeps this behaviour as written (`SynsetOfLine`).

## Model

| member | source | states |
|---|---|---|
| SynsetTesting.Wnid | synset_testing.py:11 | the wnid of an offset is `n` followed only by digits, at least nine characters long |
| SynsetTesting.WnidRoundTrip | synset_testing.py:11 | the digits after the `n` spell the offset again: padding adds nothing and cuts nothing |
| SynsetTesting.WnidInjective | synset_testing.py:11 | two offsets with the same wnid are equal |
| SynsetTesting.WnidLength | synset_testing.py:11 | offsets below 10^8 give nine characters; larger offsets give `n` plus their full unpadded decimal spelling |
| DecimalFormat.Digits | synset_testing.py:11 | the decimal spelling of `n` is non-empty, all digits, and starts with `0` only for zero |
| DecimalFormat.ZeroPad | synset_testing.py:11 | left-padding yields max(width, length of `s`) characters: as many `0`s as are missing, then `s` whole (never shortened) |
| DecimalFormat.FormatZeroPadded | synset_testing.py:11 | `{:0Wd}` yields only digits, of length max(W, number of digits) |
| DecimalFormat.DigitsValue | synset_testing.py:11 | the decimal spelling of `n` has the value `n` |
| DecimalFormat.DigitsLength | synset_testing.py:11 | `n` has at most `k` digits exactly when `n < 10^k` |
| DecimalFormat.LeadingZerosValue | synset_testing.py:11 | leading zeros do not change the value of a digit string |
| DecimalFormat.ZeroPadValue | synset_testing.py:11 | zero padding does not change the value of a digit string |
| DecimalFormat.FormatRoundTrip | synset_testing.py:11 | the zero-padded spelling of `n` has the value `n` |
| SynsetTesting.GetAllHyponyms | synset_testing.py:6-16 | the loop's result is `AllHyponyms(synset)`; each round appends the child's wnid and then the recursive result for that child; `depth` has no effect on the result |
| SynsetTesting.WalkIsPreOrder | synset_testing.py:9-13 | after `k` rounds the list holds the identifiers of the pre-order of the first `k` child subtrees |
| SynsetTesting.HyponymsArePreOrder | synset_testing.py:6-16 | the result is the pre-order of the hierarchy without its root, each offset turned into its wnid; its length is the number of nodes below the root, counted once per path |
| SynsetTesting.LeafHasNoHyponyms | synset_testing.py:7-9 | a synset with no hyponyms yields the empty list |
| SynsetTesting.WalkPrefix | synset_testing.py:12-13 | later rounds only append: the list after `j` rounds is a prefix of the list after `k >= j` rounds |
| SynsetTesting.ChildBlock | synset_testing.py:12-13 | the `i`-th child's wnid is immediately followed by everything below that child, right after what the earlier children contributed |
| SynsetTesting.SiblingOrder | synset_testing.py:9-13 | the `i`-th child's wnid and its whole subtree come before anything of a later child `j` |
| SynsetTesting.HyponymsWellFormed | synset_testing.py:11-12 | every entry is a well-formed wnid, and nine characters long when every offset below the root is below 10^8 |
| SynsetTesting.HyponymsDistinct | synset_testing.py:9-13 | when no offset repeats below the root, no wnid repeats in the result |
| SynsetTesting.RootNotEmitted | synset_testing.py:9-13 | the root's own wnid is not in the result whenever the root's offset does not recur below it; other offsets may repeat |
| SynsetTesting.WalkStep | synset_testing.py:12-13 | one more round appends the child's identifier and then everything below that child |
| SynsetTesting.TwoLevelExample | synset_testing.py:6-16 | children A(100)[C(300)] and B(200) are listed as A, C, B |
| SynsetTesting.WnidExample | synset_testing.py:11 | offset 2132136 gets the wnid `n02132136` |
| SynsetTesting.SmallWnids | synset_testing.py:11 | offsets 100, 200 and 300 get `n00000100`, `n00000200` and `n00000300` |
| SynsetTesting.HyponymsExample | synset_testing.py:6-16 | the example hierarchy A(100)[C(300)], B(200) yields exactly `["n00000100", "n00000300", "n00000200"]` |
| PyStrings.TrimLeft | preprocess_imagenet.py:12 | `lstrip()` removes exactly the leading whitespace and leaves a suffix that starts with a non-space |
| PyStrings.TrimRight | preprocess_imagenet.py:12 | `rstrip()` removes exactly the trailing whitespace and leaves a prefix that ends with a non-space |
| PyStrings.Strip | preprocess_imagenet.py:12 | `strip()` returns an infix of the line; everything cut off on either side is whitespace, and the result neither starts nor ends with whitespace |
| PyStrings.Split | preprocess_imagenet.py:12 | `split(sep)` returns one piece more than there are separators, and no piece contains the separator |
| PyStrings.JoinOfSplit | preprocess_imagenet.py:15 | `split(sep)` loses nothing: joining its pieces with `sep` (`Join`, an inverse the parser does not call) gives back the string |
| PyStrings.SplitOfJoin | preprocess_imagenet.py:15 | splitting the `sep`-join of separator-free pieces gives back the pieces |
| PyStrings.SplitHead | preprocess_imagenet.py:12-13 | the first piece is the text before the first separator (or the whole string), and the other pieces split what follows that separator |
| PyStrings.ConcatOfSplit | preprocess_imagenet.py:12-14 | `Concat`, the model of `"".join`, applied to `s.split(sep)` equals `s` with every separator deleted |
| PyStrings.ConcatOfSplitTail | preprocess_imagenet.py:12-14 | `"".join` of all pieces but the first is the text after the first separator with every separator deleted |
| PyStrings.WithoutLacks | preprocess_imagenet.py:14 | deleting a character leaves none of it and shortens the string by its number of occurrences |
| PyStrings.StripEach | preprocess_imagenet.py:16 | `[x.strip() for x in parts]` keeps the number of pieces and strips each one in place |
| PyStrings.StripIdempotent | preprocess_imagenet.py:16 | stripping a stripped string changes nothing |
| PreprocessImagenet.ParseLine | preprocess_imagenet.py:12-21 | the class name followed by the synonyms are the stripped comma pieces of the stored synset text, and there are as many synonyms as commas in it |
| PreprocessImagenet.ClassIdOfLine | preprocess_imagenet.py:12-13 | the class id is the stripped line up to its first space (the whole stripped line when there is none) and holds no space |
| PreprocessImagenet.SynsetOfLine | preprocess_imagenet.py:12-14 | the stored synset text is what follows the first space of the stripped line with every space deleted (empty when there is no space) |
| PreprocessImagenet.BlankLine | preprocess_imagenet.py:12-21 | an empty or all-whitespace line does not fail: it gives class id `""`, class `""`, synset `""` and no synonyms |
| PreprocessImagenet.MapSeq | preprocess_imagenet.py:11 | each line is processed once, in file order |
| PreprocessImagenet.BuildMapping | preprocess_imagenet.py:8-22 | the loop's dictionary is the fold of `data[class_id] = entry` over the lines; its keys are exactly the lines' class ids; every stored entry is consistent with its synset text |
| PreprocessImagenet.ParseLinesSnoc | preprocess_imagenet.py:11 | parsing one more line appends that line's parse |
| PreprocessImagenet.StoreSnoc | preprocess_imagenet.py:18 | storing one more record updates the dictionary at that record's class id |
| PreprocessImagenet.StoreKeys | preprocess_imagenet.py:18 | the stored keys are exactly the records' class ids |
| PreprocessImagenet.MappingKeys | preprocess_imagenet.py:11-18 | the dictionary's keys are exactly the class ids of all lines |
| PreprocessImagenet.StoreLastWins | preprocess_imagenet.py:18-22 | the entry under a class id is the one of the last record with that class id |
| PreprocessImagenet.MappingLastWins | preprocess_imagenet.py:11-22 | the entry under a class id is the one parsed from the last line with that class id |
| PreprocessImagenet.StoreConsistent | preprocess_imagenet.py:18-22 | storing consistent entries keeps every stored entry consistent |
| PreprocessImagenet.MappingConsistent | preprocess_imagenet.py:14-22 | every entry of the dictionary lists its class name and synonyms as the stripped comma pieces of its synset text |

## Left out

- Opening and reading `imagenet/LOC_synset_mapping.txt` (file I/O): the model takes the lines as a sequence of strings, each possibly ending in a newline.
- Text decoding of the mapping file and lone surrogate code points: Dafny strings hold Unicode scalar values only.
- The WordNet database (`wn.synsets`, `hyponyms()`, `offset()`): it is replaced by the inductive `Synset` value, which holds the offsets and the children in the order the database would return them.
- The `print` of each hyponym's lemma names and wnid, its `indent` string and the final `print(h)`: they are diagnostics and do not affect the result. `depth` is kept as a parameter and only passed on.
- `lemma_names()`: only used in the diagnostic line.
- The choice of the starting concept (`wn.synsets('bear')[0]`): a database lookup; any `Synset` value can be passed instead.
- `RecursionError`: `get_all_hyponyms` raises it on a cyclic hierarchy or on one deeper than Python's recursion limit (1000 frames by default). An inductive `Synset` is finite and acyclic, so the model always returns a list.
- `classes_to_pick` and the copying and archiving of image folders in `preprocess_imagenet.py`: file-system operations.
- Insertion order of `data`: it is modelled as a `map`, which has no order. A Python dict keeps the first position of a repeated class id. Nothing in the modelled code iterates `data`.
- `preprocess_classification.py`: not part of this model.
