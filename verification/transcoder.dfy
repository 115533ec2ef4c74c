/**
 The cutting pipeline after the file has been parsed: channel selection,
 the copy of the header and the read of `nbits`, the read and reshape of the
 sample body, the column slice, and the patch of `nchans` and `fch1` in the
 copied header. The result is what is handed to the filterbank writer.
 */
module Transcoder {
  import opened Results
  import opened Extrema
  import opened ChannelSelector
  import opened SampleGrid

  /** A header value as the filterbank library parses it. */
  datatype HeaderValue = IntValue(i: int) | RealValue(x: real) | TextValue(text: string)

  type Header = map<string, HeaderValue>

  const NchansKey: string := "nchans"
  const Fch1Key: string := "fch1"
  const NbitsKey: string := "nbits"

  /** What the parsed input file provides: its header, frequency table, shape and sample body. */
  datatype Filterbank<T> = Filterbank(
    header: Header,
    frequencies: seq<real>,
    nchan: nat,
    nspec: nat,
    body: seq<T>)

  /** What is handed to the writer: the patched header, the sample width and the cut matrix. */
  datatype CutFile<T> = CutFile(header: Header, nbits: HeaderValue, spectra: seq<seq<T>>)

  /** The copied header with the channel count and first-channel frequency of the cut. */
  function PatchHeader(h: Header, nchans: nat, fch1: real): (out: Header)
    ensures out.Keys == h.Keys + {NchansKey, Fch1Key}
    ensures out[NchansKey] == IntValue(nchans)
    ensures out[Fch1Key] == RealValue(fch1)
    ensures forall k :: k in h && k != NchansKey && k != Fch1Key ==> out[k] == h[k]
  {
    h[NchansKey := IntValue(nchans)][Fch1Key := RealValue(fch1)]
  }

  /**
   `np.fromfile(f, count=nspec*nchan).reshape(nspec, nchan)`: at most
   `Mul(nspec, nchan)` elements are read, and the reshape fails when fewer are there.
   */
  function ReadSamples<T>(body: seq<T>, nspec: nat, nchan: nat): (r: Result<seq<seq<T>>>)
    ensures r.Ok? <==> |body| >= Mul(nspec, nchan)
    ensures r.Err? ==> r.error == TruncatedData(Mul(nspec, nchan), |body|)
    ensures r.Ok? ==> |r.value| == nspec && IsGrid(r.value, nchan)
    ensures r.Ok? ==> Flatten(r.value) == body[..Mul(nspec, nchan)]
  {
    if |body| < Mul(nspec, nchan) then Err(TruncatedData(Mul(nspec, nchan), |body|))
    else Ok(Reshape(body[..Mul(nspec, nchan)], nspec, nchan))
  }

  /**
   The read of the sample body followed by the column slice `data[:, lochan:hichan+1]`:
   every spectrum keeps the channels `lochan` to `hichan`.
   */
  function CutSamples<T>(body: seq<T>, nspec: nat, nchan: nat, lochan: nat, hichan: nat): (r: Result<seq<seq<T>>>)
    ensures r.Ok? <==> |body| >= Mul(nspec, nchan)
    ensures r.Err? ==> r.error == TruncatedData(Mul(nspec, nchan), |body|)
    ensures r.Ok? ==> |r.value| == nspec
    ensures r.Ok? ==> IsGrid(r.value, SliceWidth(nchan, lochan, hichan + 1))
    ensures r.Ok? && lochan <= hichan < nchan ==> IsGrid(r.value, hichan - lochan + 1)
    ensures r.Ok? ==>
      var data := ReadSamples(body, nspec, nchan).value;
      forall i, j :: 0 <= i < |r.value| && 0 <= j < |r.value[i]| ==>
        lochan + j < nchan && r.value[i][j] == data[i][lochan + j]
  {
    var data :- ReadSamples(body, nspec, nchan);
    Ok(SliceColumns(data, nchan, lochan, hichan + 1))
  }

  /**
   Element `(row, col)` of the cut buffer, at flat index `row * new_nchans + col`,
   is element `row * nchan + lochan + col` of the input sample body.
   */
  lemma CutSamplesFlatIndex<T>(body: seq<T>, nspec: nat, nchan: nat, lochan: nat, hichan: nat, row: nat, col: nat)
    requires CutSamples(body, nspec, nchan, lochan, hichan).Ok?
    requires lochan <= hichan < nchan && row < nspec && col <= hichan - lochan
    ensures
      var w, payload := hichan - lochan + 1, Flatten(CutSamples(body, nspec, nchan, lochan, hichan).value);
      && |payload| == Mul(nspec, w)
      && Mul(row, w) + col < |payload|
      && Mul(row, nchan) + (lochan + col) < |body|
      && payload[Mul(row, w) + col] == body[Mul(row, nchan) + (lochan + col)]
  {
    var data := ReadSamples(body, nspec, nchan).value;
    var cut := SliceColumns(data, nchan, lochan, hichan + 1);
    FlattenLength(cut, hichan - lochan + 1);
    SliceFlatIndex(data, nchan, lochan, hichan + 1, row, col);
    PrefixIndex(Flatten(cut), Flatten(data), body, Mul(nspec, nchan),
                Mul(row, hichan - lochan + 1) + col, Mul(row, nchan) + (lochan + col));
  }

  /** An element read through a prefix of the body is the element of the body. */
  lemma PrefixIndex<T>(payload: seq<T>, read: seq<T>, body: seq<T>, n: nat, p: nat, k: nat)
    requires n <= |body| && read == body[..n]
    requires p < |payload| && k < |read| && payload[p] == read[k]
    ensures k < |body| && payload[p] == body[k]
  {
  }

  /** The whole cut: select the channels, read `nbits`, read the samples, slice them and patch the header. */
  function Cut<T>(fb: Filterbank<T>, lo: Option<real>, hi: Option<real>): (r: Result<CutFile<T>>)
    ensures Select(fb.frequencies, lo, hi).Err? ==> r == Err(Select(fb.frequencies, lo, hi).error)
    ensures Select(fb.frequencies, lo, hi).Ok? && NbitsKey !in fb.header ==> r == Err(MissingHeaderKey(NbitsKey))
    ensures Select(fb.frequencies, lo, hi).Ok? && NbitsKey in fb.header && |fb.body| < Mul(fb.nspec, fb.nchan) ==>
      r == Err(TruncatedData(Mul(fb.nspec, fb.nchan), |fb.body|))
    ensures r.Ok? <==>
      Select(fb.frequencies, lo, hi).Ok? && NbitsKey in fb.header && |fb.body| >= Mul(fb.nspec, fb.nchan)
    ensures r.Ok? ==>
      var sel, out := Select(fb.frequencies, lo, hi).value, r.value.header;
      && out.Keys == fb.header.Keys + {NchansKey, Fch1Key}
      && out[NchansKey] == IntValue(sel.nchans)
      && out[Fch1Key] == RealValue(fb.frequencies[sel.lochan])
      && (forall k :: k in fb.header && k != NchansKey && k != Fch1Key ==> out[k] == fb.header[k])
      && out[NbitsKey] == fb.header[NbitsKey] == r.value.nbits
    ensures r.Ok? ==>
      var sel := Select(fb.frequencies, lo, hi).value;
      r.value.spectra == CutSamples(fb.body, fb.nspec, fb.nchan, sel.lochan, sel.hichan).value
  {
    var sel :- Select(fb.frequencies, lo, hi);
    // The deep copy of the header: Dafny maps are values, so the copy is the header itself.
    var outHeader := fb.header;
    if NbitsKey !in fb.header then Err(MissingHeaderKey(NbitsKey))
    else
      var nbits := fb.header[NbitsKey];
      var spectra :- CutSamples(fb.body, fb.nspec, fb.nchan, sel.lochan, sel.hichan);
      Ok(CutFile(PatchHeader(outHeader, sel.nchans, fb.frequencies[sel.lochan]), nbits, spectra))
  }

  /** Patching a header with the values it already holds leaves it unchanged. */
  lemma PatchHeaderUnchanged(h: Header, nchans: nat, fch1: real)
    requires NchansKey in h && h[NchansKey] == IntValue(nchans)
    requires Fch1Key in h && h[Fch1Key] == RealValue(fch1)
    ensures PatchHeader(h, nchans, fch1) == h
  {
    var out := PatchHeader(h, nchans, fch1);
    assert out.Keys == h.Keys;
    forall k | k in out
      ensures out[k] == h[k]
    {
    }
  }

  /** Cutting every column of the body gives back the read prefix of the body. */
  lemma {:induction false} CutSamplesAll<T>(body: seq<T>, nspec: nat, nchan: nat)
    requires nchan > 0 && |body| >= Mul(nspec, nchan)
    ensures CutSamples(body, nspec, nchan, 0, nchan - 1).Ok?
    ensures Flatten(CutSamples(body, nspec, nchan, 0, nchan - 1).value) == body[..Mul(nspec, nchan)]
  {
    var data := ReadSamples(body, nspec, nchan).value;
    SliceAllColumns(data, nchan);
  }

  /**
   With both bounds absent, a file whose table is strictly monotone is copied:
   the written samples are the input samples, and a header that already
   describes the table is written back unchanged.
   */
  lemma {:induction false} CutFullRange<T>(fb: Filterbank<T>)
    requires |fb.frequencies| == fb.nchan > 0
    requires StrictlyIncreasing(fb.frequencies) || StrictlyDecreasing(fb.frequencies)
    requires NbitsKey in fb.header && |fb.body| >= Mul(fb.nspec, fb.nchan)
    ensures Cut(fb, None, None).Ok?
    ensures Flatten(Cut(fb, None, None).value.spectra) == fb.body[..Mul(fb.nspec, fb.nchan)]
    ensures fb.header.Keys >= {NchansKey, Fch1Key}
              && fb.header[NchansKey] == IntValue(fb.nchan)
              && fb.header[Fch1Key] == RealValue(fb.frequencies[0])
            ==> Cut(fb, None, None).value.header == fb.header
  {
    SelectFullRange(fb.frequencies);
    CutSamplesAll(fb.body, fb.nspec, fb.nchan);
    if fb.header.Keys >= {NchansKey, Fch1Key}
       && fb.header[NchansKey] == IntValue(fb.nchan)
       && fb.header[Fch1Key] == RealValue(fb.frequencies[0])
    {
      PatchHeaderUnchanged(fb.header, fb.nchan, fb.frequencies[0]);
    }
  }
}
