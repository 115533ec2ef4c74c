# filterbank-cutter, modelled in Dafny

`filterbank_cutter.py` truncates a radio-astronomy filterbank file along its
frequency axis. This project models the part of it that decides and performs
the cut:

- **Channel selection** (module `ChannelSelector`, built on `Extrema`). It takes
  the frequency table (one frequency per channel, stored ascending or
  descending) and the optional `--lo_freq` / `--hi_freq` bounds. It rejects a
  high bound at or above the table maximum and a low bound at or below the table
  minimum. It rejects `lo >= hi` when both are given. It resolves each bound to
  a channel: an absent low bound becomes `argmin`, an absent high bound `argmax`,
  and a given bound the nearest channel, `argmin |f - target|`. numpy's
  first-index tie rule is kept. The two channels are swapped when out of order,
  and the inclusive count `new_nchans` gets its defensive check.
- **Sample cut and header patch** (modules `SampleGrid` and `Transcoder`). The
  sample body is read as a flat buffer of `nspec * nchan` elements and reshaped
  row-major. Short input makes the reshape fail. Columns `lochan..hichan` are
  sliced out with numpy's clamping slice semantics. The copied header gets
  `nchans = new_nchans` and `fch1 = frequencies[lochan]`. `nbits` is read from
  the header, and a missing key is an error.

Frequencies are Dafny `real`: the selection only compares and subtracts them.
Sample elements have a generic type `T`, because the code only passes the dtype
through. Header values are a small tagged union in a `map<string, _>`. Every
exception on this path is a `CutError` in a `Result`.

The bound check is looser than its own error message. The message at
filterbank_cutter.py:33 rejects requests "beyond what is already in the
filterbank file", but lines 31-32 test only `hi >= max` and `lo <= min`. A
lone low bound above the whole band therefore passes and selects the single
first-maximum channel: the table 1, 2, 3 MHz with `lo = 10` selects channels
2..2. A lone high bound below the band likewise selects the first-minimum
channel. This model follows the code, and `ChannelSelector.LowBoundAboveTop`
and `ChannelSelector.HighBoundBelowBottom` state both cases.

Whether a request fails, and with which error, never depends on the
orientation (`ChannelSelector.SelectReverseErrors`). The channels chosen are
orientation-independent only without ties. With a unique extremum and a
unique nearest channel for each bound, the reversed table selects the mirrored
range, which holds the same channels (`ChannelSelector.SelectReverse` and
`ChannelSelector.ReverseRange`). With an equidistant pair, the first channel in
storage order wins, so the orientation changes the cut
(`ChannelSelector.TieInAscendingTable`, `ChannelSelector.TieInDescendingTable`).

Row and column arithmetic is written with `SampleGrid.Mul`, multiplication by
repeated addition, which `SampleGrid.MulIsProduct` proves equal to `*`. It
keeps the index proofs linear.

## Model

| member | source | states |
|---|---|---|
| `Extrema.ArgMin` | filterbank_cutter.py:40 | the result indexes a least frequency, and every earlier channel is strictly larger (numpy's first-index rule) |
| `Extrema.ScanArgMin` | filterbank_cutter.py:40 | the left-to-right scan finds the first least element and agrees with `ArgMin` |
| `Extrema.ArgMax` | filterbank_cutter.py:45 | the result indexes a greatest frequency, and every earlier channel is strictly smaller |
| `Extrema.Min` | filterbank_cutter.py:30 | `minfreq` is a table entry no larger than any entry |
| `Extrema.Max` | filterbank_cutter.py:29 | `maxfreq` is a table entry no smaller than any entry |
| `Extrema.Nearest` | filterbank_cutter.py:42 | the resolved channel minimises `abs(f[k] - target)` over all channels and is the lowest such index |
| `Extrema.ArgMinReverse` | filterbank_cutter.py:40 | with a unique minimum, `argmin` of the reversed table is the mirrored index |
| `Extrema.ArgMaxReverse` | filterbank_cutter.py:45 | with a unique maximum, `argmax` of the reversed table is the mirrored index |
| `Extrema.MinReverse` | filterbank_cutter.py:30 | the table minimum does not depend on storage orientation |
| `Extrema.MaxReverse` | filterbank_cutter.py:29 | the table maximum does not depend on storage orientation |
| `Extrema.NearestReverse` | filterbank_cutter.py:42 | with a unique closest channel, the nearest lookup on the reversed table finds the mirrored index |
| `Extrema.IncreasingExtrema` | filterbank_cutter.py:39-45 | in a strictly ascending table `argmin` is channel 0 and `argmax` the last channel |
| `Extrema.DecreasingExtrema` | filterbank_cutter.py:39-45 | in a strictly descending table `argmin` is the last channel and `argmax` channel 0 |
| `ChannelSelector.ResolveLow` | filterbank_cutter.py:39-42 | the low channel is the unique index that is the first minimum (bound absent) or the first nearest channel (bound given) |
| `ChannelSelector.ResolveHigh` | filterbank_cutter.py:44-47 | the high channel is the unique index that is the first maximum (bound absent) or the first nearest channel (bound given) |
| `ChannelSelector.OrderRange` | filterbank_cutter.py:49-59 | after the swap the pair is ordered and is the resolved pair in some order; the count is inclusive, so the defensive error is never produced |
| `ChannelSelector.Select` | filterbank_cutter.py:28-59 | an empty table fails; `hi >= max` or `lo <= min` fails; both given with `lo >= hi` fails; it succeeds exactly otherwise, with `0 <= lochan <= hichan < N`, `new_nchans = hichan - lochan + 1 >= 1`, no channel-count error, and one end the low channel and the other the high channel of the two bounds, in whichever order the orientation puts them |
| `ChannelSelector.SelectFullRange` | filterbank_cutter.py:53-56 | with both bounds absent, a strictly monotone table of N channels selects `0..N-1` with `new_nchans = N`, in either orientation |
| `ChannelSelector.LowBoundAboveTop` | filterbank_cutter.py:31-32 | a lone low bound at or above the table maximum passes the check and selects the single first-maximum channel |
| `ChannelSelector.HighBoundBelowBottom` | filterbank_cutter.py:31-32 | a lone high bound at or below the table minimum passes the check and selects the single first-minimum channel |
| `ChannelSelector.ResolveLowReverse` | filterbank_cutter.py:39-42 | without a tie, the low channel of the reversed table is the mirrored index |
| `ChannelSelector.ResolveHighReverse` | filterbank_cutter.py:44-47 | without a tie, the high channel of the reversed table is the mirrored index |
| `ChannelSelector.SelectReverseErrors` | filterbank_cutter.py:28-37 | for every table and request, the reversed table succeeds exactly when the original does and otherwise fails with the same error |
| `ChannelSelector.SelectReverse` | filterbank_cutter.py:28-59 | without ties, the reversed table fails with the same error or selects the mirrored range of the same size |
| `ChannelSelector.ReverseRange` | filterbank_cutter.py:49-51 | the mirrored range `n-1-h .. n-1-l` of the reversed table holds the channels `l .. h` of the original table in reverse order |
| `ChannelSelector.DescendingTableExample` | filterbank_cutter.py:42-51 | table 100, 99, 98, 97 MHz with low bound 98.4 MHz: channel 2 is nearest, the absent high bound gives channel 0, and the swap yields channels 0..2 |
| `ChannelSelector.TieInAscendingTable` | filterbank_cutter.py:42-51 | table 1, 2, 3 MHz with low bound 1.5 MHz: the tie goes to 1 MHz and all three channels are kept |
| `ChannelSelector.TieInDescendingTable` | filterbank_cutter.py:42-51 | table 3, 2, 1 MHz with low bound 1.5 MHz: the tie goes to 2 MHz and the 1 MHz channel is dropped |
| `SampleGrid.FlattenLength` | filterbank_cutter.py:81 | the row-major layout of `nrows` rows of `ncols` has `nrows * ncols` elements |
| `SampleGrid.FlattenIndex` | filterbank_cutter.py:81 | element `(row, col)` sits at flat index `row * ncols + col` of the row-major layout |
| `SampleGrid.Reshape` | filterbank_cutter.py:81 | `reshape(nspec, nchan)` yields `nspec` rows of `nchan` whose row-major layout is the buffer |
| `SampleGrid.ReshapeFlatten` | filterbank_cutter.py:81 | reshaping the layout of a matrix gives the matrix back |
| `SampleGrid.ReshapeIndex` | filterbank_cutter.py:81 | element `(row, col)` of the reshaped buffer is flat element `row * ncols + col` |
| `SampleGrid.SliceWidth` | filterbank_cutter.py:89 | numpy's clamped slice keeps `min(stop, ncols) - start` columns when `start <= ncols` and `start <= stop`, never more than the row, and none for a reversed or out-of-row start |
| `SampleGrid.SliceColumns` | filterbank_cutter.py:89 | `data[:, start:stop]` keeps every row, and its column `j` is column `start + j` of the input |
| `SampleGrid.SliceAllColumns` | filterbank_cutter.py:89 | slicing `0:ncols` keeps the matrix |
| `SampleGrid.SliceFlatIndex` | filterbank_cutter.py:89 | flat element `row * w + col` of the slice is flat element `row * ncols + start + col` of the input |
| `Transcoder.PatchHeader` | filterbank_cutter.py:96-97 | the patched header has `nchans` and `fch1` set and every other key unchanged |
| `Transcoder.ReadSamples` | filterbank_cutter.py:81 | reading succeeds exactly when the body holds `nspec * nchan` elements; the result has `nspec` rows of `nchan` laid out as that prefix of the body |
| `Transcoder.CutSamples` | filterbank_cutter.py:81-89 | the cut buffer has `nspec` rows of the clamped slice width (`hichan - lochan + 1` when `hichan < nchan`), and element `(i, j)` is element `(i, lochan + j)` of the read matrix |
| `Transcoder.CutSamplesFlatIndex` | filterbank_cutter.py:81-89 | the cut buffer has `nspec * new_nchans` elements, and flat element `r * new_nchans + c` is body element `r * nchan + lochan + c` |
| `Transcoder.CutSamplesAll` | filterbank_cutter.py:81-89 | cutting columns `0..nchan-1` gives back the read prefix of the body |
| `Transcoder.PatchHeaderUnchanged` | filterbank_cutter.py:96-97 | patching a header with the values it already holds leaves it unchanged |
| `Transcoder.Cut` | filterbank_cutter.py:28-97 | selection errors propagate; then a missing `nbits`, then a short body, fails; on success the header has `nchans = new_nchans`, `fch1 = frequencies[lochan]` and every other key, `nbits` included, unchanged, and the samples are the cut buffer |
| `Transcoder.CutFullRange` | filterbank_cutter.py:53-97 | with both bounds absent and a strictly monotone table, the written samples are the input samples, and a header already describing the table is written back unchanged |

## Left out

- The output-exists check with `os.path.exists` (filterbank_cutter.py:21-22): file-system state.
- Opening and parsing the input with `FilterbankFile` (filterbank_cutter.py:26): the filterbank library is not part of this model. Its results are the inputs of `Transcoder.Filterbank`: header, frequency table, `nchan`, `nspec` and the sample body after the header.
- The `seek` and `np.fromfile` byte reads and the closed-handle report (filterbank_cutter.py:78-86): file I/O. The body is given as a sequence of whole elements, and `Transcoder.ReadSamples` models the element count and the reshape.
- Writing the output with `create_filterbank_file` (filterbank_cutter.py:100): a foreign call. The model stops at its arguments, `Transcoder.CutFile`.
- The import fallback between `filterbank` and `presto.filterbank` (filterbank_cutter.py:11-19): packaging.
- Argument parsing and help text (filterbank_cutter.py:104-122), and every console message.
- Sample dtypes and bit widths: elements have a generic type, and `nbits` is passed through.
- Floating point: frequencies are exact reals, so NaN, rounding in `f - target` and ties caused by rounding are not modelled.
- `new_nchans` as a numpy integer: a count of channels cannot overflow 64 bits, so it is an unbounded integer.
- `ChannelSelector.SelectReverse`: the mirrored channel range is stated only for requests without ties; with a tie the orientation does change the cut, as `ChannelSelector.TieInDescendingTable` shows. The error half holds for all requests (`ChannelSelector.SelectReverseErrors`).
