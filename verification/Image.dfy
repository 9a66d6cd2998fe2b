/** A file's data as the list of its cluster blocks, and as a string of bytes. */
module Image {
  import opened Bits
  import opened Device
  import opened Cache

  /** n blocks of cs bytes each. */
  ghost predicate Shaped(img: seq<seq<byte>>, cs: nat) {
    cs > 0 && forall i :: 0 <= i < |img| ==> |img[i]| == cs
  }

  lemma BlockOfByte(p: nat, cs: nat, n: nat)
    requires cs > 0 && p < n * cs
    ensures p / cs < n
    ensures p == p / cs * cs + p % cs
  {
    if p / cs > n {
      NextMultiple(cs, n, p / cs);
    }
  }

  /** The shift and the mask that fs_read and fs_write use. */
  lemma PlaceByShift(p: nat, cs: nat, w: nat)
    requires cs == Size(w)
    ensures Shr(p, Log(cs)) == p / cs && And(p, cs - 1) == p % cs
  {
    LogOfSize(w);
    ShiftIsDivision(p, w);
    MaskIsRemainder(p, w);
  }

  lemma ByteInBlock(p: nat, cs: nat, k: nat)
    requires k * cs <= p < k * cs + cs
    ensures p / cs == k && p % cs == p - k * cs
  {
    RemainderIs(p, cs, k, p - k * cs);
  }

  /** Byte p of the data. */
  ghost function ByteAt(img: seq<seq<byte>>, cs: nat, p: nat): byte
    requires Shaped(img, cs) && p < |img| * cs
  {
    BlockOfByte(p, cs, |img|);
    img[p / cs][p % cs]
  }

  /** The first `size` bytes: the contents of the file. */
  ghost function Contents(img: seq<seq<byte>>, cs: nat, size: nat): (r: seq<byte>)
    requires Shaped(img, cs) && size <= |img| * cs
    ensures |r| == size
  {
    seq(size, p requires 0 <= p < size => ByteAt(img, cs, p))
  }

  /** s with b written over it from loc on. */
  function Overwritten(s: seq<byte>, loc: nat, b: seq<byte>): seq<byte>
    requires loc <= |s|
  {
    s[..loc] + b + if loc + |b| < |s| then s[loc + |b|..] else []
  }

  /** The blocks agree with what they were, except that bytes lo .. lo + n are those of src. */
  ghost predicate Written(img: seq<seq<byte>>, img': seq<seq<byte>>, cs: nat, lo: nat, src: seq<byte>, n: nat)
    requires Shaped(img, cs) && Shaped(img', cs) && |img| <= |img'| && n <= |src| && lo + n <= |img'| * cs
  {
    && (forall p: nat :: lo <= p < lo + n ==> ByteAt(img', cs, p) == src[p - lo])
    && (forall p: nat :: p < |img| * cs && p < |img'| * cs && !(lo <= p < lo + n) ==>
         ByteAt(img', cs, p) == ByteAt(img, cs, p))
  }

  lemma MoreBlocks(n: nat, m: nat, cs: nat)
    requires n <= m
    ensures n * cs <= m * cs
  {
    if n < m {
      NextMultiple(cs, n, m);
    }
  }

  /** Blocks added at the end change no byte before. */
  lemma AppendedBlocks(img: seq<seq<byte>>, img': seq<seq<byte>>, cs: nat, p: nat)
    requires Shaped(img, cs) && Shaped(img', cs) && img <= img' && p < |img| * cs
    ensures |img| * cs <= |img'| * cs && ByteAt(img', cs, p) == ByteAt(img, cs, p)
  {
    MoreBlocks(|img|, |img'|, cs);
    BlockOfByte(p, cs, |img|);
  }

  lemma WrittenThenAppended(img: seq<seq<byte>>, mid: seq<seq<byte>>, img': seq<seq<byte>>, cs: nat, lo: nat,
                            src: seq<byte>, n: nat)
    requires Shaped(img, cs) && Shaped(mid, cs) && Shaped(img', cs) && |img| <= |mid| && mid <= img'
    requires n <= |src| && lo + n <= |mid| * cs && Written(img, mid, cs, lo, src, n)
    ensures lo + n <= |img'| * cs && Written(img, img', cs, lo, src, n)
  {
    MoreBlocks(|img|, |mid|, cs);
    MoreBlocks(|mid|, |img'|, cs);
    forall p: nat | p < |mid| * cs ensures ByteAt(img', cs, p) == ByteAt(mid, cs, p) {
      AppendedBlocks(mid, img', cs, p);
    }
  }

  /** One more stretch, inside block k, continuing where the last one ended. */
  lemma WrittenFurther(img: seq<seq<byte>>, mid: seq<seq<byte>>, img': seq<seq<byte>>, cs: nat, lo: nat,
                       src: seq<byte>, n: nat,
                       k: nat, from: nat, len: nat)
    requires Shaped(img, cs) && Shaped(mid, cs) && Shaped(img', cs) && |img| <= |mid| == |img'|
    requires n <= |src| && lo + n <= |mid| * cs && Written(img, mid, cs, lo, src, n)
    requires k < |mid| && from + len <= cs && n + len <= |src| && k * cs + from == lo + n
    requires forall i :: 0 <= i < |mid| && i != k ==> img'[i] == mid[i]
    requires forall j :: 0 <= j < cs ==> img'[k][j] == Patched(mid[k], from, src, n, len, j)
    ensures lo + n + len <= |img'| * cs && Written(img, img', cs, lo, src, n + len)
  {
    MoreBlocks(k + 1, |mid|, cs);
    forall p: nat | p < |img'| * cs
      ensures ByteAt(img', cs, p) == if lo + n <= p < lo + n + len then src[p - lo] else ByteAt(mid, cs, p)
    {
      StretchByte(mid, img', cs, lo, src, n, k, from, len, p);
    }
  }

  lemma StretchByte(mid: seq<seq<byte>>, img': seq<seq<byte>>, cs: nat, lo: nat, src: seq<byte>, n: nat,
                    k: nat, from: nat, len: nat, p: nat)
    requires Shaped(mid, cs) && Shaped(img', cs) && |mid| == |img'| && p < |mid| * cs
    requires k < |mid| && from + len <= cs && n + len <= |src| && k * cs + from == lo + n
    requires forall i :: 0 <= i < |mid| && i != k ==> img'[i] == mid[i]
    requires forall j :: 0 <= j < cs ==> img'[k][j] == Patched(mid[k], from, src, n, len, j)
    ensures ByteAt(img', cs, p) == if lo + n <= p < lo + n + len then src[p - lo] else ByteAt(mid, cs, p)
  {
    var q, r := PlaceOfByte(mid, img', cs, p, k);
    StretchInBlock(mid, img', cs, lo, src, n, k, from, len, p, k * cs, q, r);
  }

  /** Where byte p stands, and whether that is in block k. */
  lemma PlaceOfByte(img: seq<seq<byte>>, img': seq<seq<byte>>, cs: nat, p: nat, k: nat) returns (q: nat, r: nat)
    requires Shaped(img, cs) && Shaped(img', cs) && |img| == |img'| && p < |img| * cs
    ensures q < |img| && r < cs && ByteAt(img, cs, p) == img[q][r] && ByteAt(img', cs, p) == img'[q][r]
    ensures if q == k then p == k * cs + r else !(k * cs <= p < k * cs + cs)
  {
    BlockOfByte(p, cs, |img|);
    q, r := p / cs, p % cs;
    if q != k {
      var base := k * cs;
      if base <= p < base + cs {
        ByteInBlock(p, cs, k);
      }
    }
  }

  lemma StretchInBlock(mid: seq<seq<byte>>, img': seq<seq<byte>>, cs: nat, lo: nat, src: seq<byte>, n: nat,
                       k: nat, from: nat, len: nat, p: nat, base: nat, q: nat, r: nat)
    requires Shaped(mid, cs) && Shaped(img', cs) && |mid| == |img'| && q < |mid| && r < cs
    requires k < |mid| && from + len <= cs && n + len <= |src| && base + from == lo + n
    requires if q == k then p == base + r else !(base <= p < base + cs)
    requires forall i :: 0 <= i < |mid| && i != k ==> img'[i] == mid[i]
    requires forall j :: 0 <= j < cs ==> img'[k][j] == Patched(mid[k], from, src, n, len, j)
    ensures img'[q][r] == if lo + n <= p < lo + n + len then src[p - lo] else mid[q][r]
  {
  }

  /** Before anything is written. */
  lemma NothingWritten(img: seq<seq<byte>>, img': seq<seq<byte>>, cs: nat, lo: nat, src: seq<byte>)
    requires Shaped(img, cs) && Shaped(img', cs) && img <= img' && lo <= |img'| * cs
    ensures Written(img, img', cs, lo, src, 0)
  {
    forall p: nat | p < |img| * cs ensures p < |img'| * cs && ByteAt(img', cs, p) == ByteAt(img, cs, p) {
      AppendedBlocks(img, img', cs, p);
    }
  }

  /** A position inside block k is a position of the data; the blocks before the last one of a run are full. */
  lemma RunInBlocks(k: nat, from: nat, last: nat, end: nat, cs: nat, n: nat)
    requires k <= last && from < cs && end < cs && k < n
    ensures k * cs + from < n * cs
    ensures k < last ==> k * cs + cs == (k + 1) * cs <= last * cs
  {
    MoreBlocks(k + 1, n, cs);
    if k < last {
      MoreBlocks(k + 1, last, cs);
    }
  }

  /** data is what stands at lo and after it. */
  ghost predicate ReadAt(img: seq<seq<byte>>, cs: nat, lo: nat, data: seq<byte>)
    requires Shaped(img, cs) && lo + |data| <= |img| * cs
  {
    forall t {:trigger data[t]} :: 0 <= t < |data| ==> data[t] == ByteAt(img, cs, lo + t)
  }

  /** One more stretch read, inside block k, continuing where the last one ended. */
  lemma ReadFurther(img: seq<seq<byte>>, cs: nat, lo: nat, data: seq<byte>, k: nat, from: nat, len: nat)
    requires Shaped(img, cs) && lo + |data| <= |img| * cs && ReadAt(img, cs, lo, data)
    requires k < |img| && from + len <= cs && k * cs + from == lo + |data|
    ensures lo + |data| + len <= |img| * cs && ReadAt(img, cs, lo, data + img[k][from..from + len])
  {
    MoreBlocks(k + 1, |img|, cs);
    var more := data + img[k][from..from + len];
    forall t | 0 <= t < |more| ensures more[t] == ByteAt(img, cs, lo + t) {
      if t >= |data| {
        ByteInBlock(lo + t, cs, k);
      }
    }
  }

  lemma ReadContents(img: seq<seq<byte>>, cs: nat, size: nat, lo: nat, data: seq<byte>)
    requires Shaped(img, cs) && size <= |img| * cs && lo + |data| <= size && ReadAt(img, cs, lo, data)
    ensures data == Contents(img, cs, size)[lo..lo + |data|]
  {
  }

  /** The stretch of a run in block j, after cc bytes of it: to the end of the run, or to the end of the block
      with more to come. */
  lemma NextStretch(j: nat, first: nat, last: nat, end: nat, cs: nat, lo: nat, cc: nat, count: nat)
    requires j <= last && first < cs && end < cs && cc < count
    requires j * cs + first == lo + cc && last * cs + end + 1 == lo + count
    ensures j == last ==> first <= end && cc + (end + 1 - first) == count
    ensures j < last ==> (j + 1) * cs == lo + (cc + (cs - first)) && cc + (cs - first) < count
  {
    RunInBlocks(j, first, last, end, cs, last + 1);
  }

  /** Where a run of count bytes from lo on begins and ends. */
  lemma RunPlaces(lo: nat, count: nat, k: nat, from: nat, last: nat, end: nat, cs: nat, n: nat)
    requires count > 0 && lo == k * cs + from && lo + count - 1 == last * cs + end && from < cs && end < cs
    ensures k <= last
    ensures lo + count <= n * cs <==> last < n
  {
    if k > last {
      MoreBlocks(last + 1, k, cs);
    }
    if last < n {
      MoreBlocks(last + 1, n, cs);
    } else {
      MoreBlocks(n, last, cs);
    }
  }

  /** A write that gave up after n bytes, seen on the file's contents. */
  lemma PartContents(img: seq<seq<byte>>, img': seq<seq<byte>>, cs: nat, size: nat, lo: nat, src: seq<byte>, n: nat)
    requires Shaped(img, cs) && Shaped(img', cs) && |img| <= |img'| && n <= |src| && lo + n <= |img'| * cs
    requires lo <= size <= |img| * cs && Written(img, img', cs, lo, src, n)
    ensures size <= |img'| * cs && PartlyOverwritten(Contents(img, cs, size), Contents(img', cs, size), lo, src)
  {
    MoreBlocks(|img|, |img'|, cs);
    assert UpTo(Contents(img, cs, size), Contents(img', cs, size), lo, src, n);
  }

  /** The first n bytes of b have been written over s from lo on, as far as s reaches. */
  predicate UpTo(s: seq<byte>, t: seq<byte>, lo: nat, b: seq<byte>, n: nat)
    requires n <= |b|
  {
    |t| == |s| && forall p :: 0 <= p < |s| ==> t[p] == if lo <= p < lo + n then b[p - lo] else s[p]
  }

  ghost predicate PartlyOverwritten(s: seq<byte>, t: seq<byte>, lo: nat, b: seq<byte>) {
    exists n: nat :: n <= |b| && UpTo(s, t, lo, b, n)
  }

  lemma NothingOverwritten(s: seq<byte>, loc: nat)
    requires loc <= |s|
    ensures Overwritten(s, loc, []) == s
  {
  }

  /** The whole write, seen on the file's contents. */
  lemma WrittenContents(img: seq<seq<byte>>, img': seq<seq<byte>>, cs: nat, size: nat, lo: nat, src: seq<byte>)
    requires Shaped(img, cs) && Shaped(img', cs) && |img| <= |img'| && lo + |src| <= |img'| * cs
    requires lo <= size <= |img| * cs && Written(img, img', cs, lo, src, |src|)
    ensures |img| * cs <= |img'| * cs
    ensures Contents(img', cs, if lo + |src| > size then lo + |src| else size) ==
      Overwritten(Contents(img, cs, size), lo, src)
  {
    MoreBlocks(|img|, |img'|, cs);
  }
}
