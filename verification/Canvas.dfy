/** The pixel canvas frames are composited on: bounded, with writes outside it dropped. */
module Canvases {
  import opened Gif

  class Canvas {
    const w: nat
    const h: nat
    const px: array2<rgb>

    constructor (w: nat, h: nat)
      ensures this.w == w && this.h == h && Valid() && fresh(px)
    {
      this.w, this.h := w, h;
      px := new rgb[h, w]((y, x) => 0);
    }

    ghost predicate Valid() { px.Length0 == h && px.Length1 == w }

    ghost function Row(y: nat): (r: seq<rgb>)
      requires Valid() && y < h
      reads px
      ensures |r| == w && forall x :: 0 <= x < w ==> r[x] == px[y, x]
    {
      seq(w, x requires 0 <= x < w reads px => px[y, x])
    }

    ghost function Img(): (img: Image)
      requires Valid()
      reads px
      ensures img.Valid() && img.w == w && img.h == h
    {
      Image(w, h, seq(h, y requires 0 <= y < h reads px => Row(y)))
    }

    lemma Pixels()
      requires Valid()
      ensures forall y, x :: 0 <= y < h && 0 <= x < w ==> Img().rows[y][x] == px[y, x]
    {
      forall y, x | 0 <= y < h && 0 <= x < w ensures Img().rows[y][x] == px[y, x] {
        assert Img().rows[y] == Row(y);
      }
    }

    lemma Shows(img: Image)
      requires Valid() && img.Valid() && img.w == w && img.h == h
      requires forall y, x :: 0 <= y < h && 0 <= x < w ==> px[y, x] == img.rows[y][x]
      ensures Img() == img
    {
      Pixels();
      forall y | 0 <= y < h ensures Img().rows[y] == img.rows[y] {
        assert forall x :: 0 <= x < w ==> Img().rows[y][x] == img.rows[y][x];
      }
    }

    method SetPixel(x: int, y: int, c: rgb)
      requires Valid()
      modifies px
      ensures forall j, i :: 0 <= j < h && 0 <= i < w ==> px[j, i] == if j == y && i == x then c else old(px[j, i])
    {
      if 0 <= x < w && 0 <= y < h { px[y, x] := c; }
    }

    method GetPixel(x: int, y: int) returns (c: rgb)
      requires Valid()
      ensures c == At(Img(), x, y)
    {
      Pixels();
      c := if 0 <= x < w && 0 <= y < h then px[y, x] else 0;
    }

    method FillRect(x: int, y: int, width: nat, height: nat, c: rgb)
      requires Valid()
      modifies px
      ensures Img() == Filled(old(Img()), x, y, width, height, c)
    {
      Pixels();
      for j := 0 to height
        invariant forall b, a :: 0 <= b < h && 0 <= a < w ==>
                    px[b, a] == if Inside(a, b, x, y, width, j) then c else old(px[b, a])
      {
        for i := 0 to width
          invariant forall b, a :: 0 <= b < h && 0 <= a < w ==>
                      px[b, a] == if Inside(a, b, x, y, width, j) || (b == y + j && x <= a < x + i) then c else old(px[b, a])
        {
          SetPixel(x + i, y + j, c);
        }
      }
      Shows(Filled(old(Img()), x, y, width, height, c));
    }

    /** Puts a saved block back, row by row. */
    method PutBlock(x: int, y: int, width: nat, height: nat, saved: array<rgb>)
      requires Valid() && height * width <= saved.Length
      modifies px
      ensures Img() == Pasted(old(Img()), x, y, width, height, saved[..height * width])
    {
      ghost var block := saved[..height * width];
      ghost var target := Pasted(Img(), x, y, width, height, block);
      Pixels();
      var k := 0;
      for j := 0 to height
        invariant k == j * width <= height * width
        invariant forall b, a :: 0 <= b < h && 0 <= a < w ==>
                    px[b, a] == if Inside(a, b, x, y, width, j) then target.rows[b][a] else old(px[b, a])
      {
        RowsBelow(j, width, height);
        ghost var base := j * width;
        assert base + width == (j + 1) * width;
        for i := 0 to width
          invariant k == base + i
          invariant forall b, a :: 0 <= b < h && 0 <= a < w ==>
                      px[b, a] == if Inside(a, b, x, y, width, j) || (b == y + j && x <= a < x + i)
                                  then target.rows[b][a] else old(px[b, a])
        {
          SetPixel(x + i, y + j, saved[k]);
          k := k + 1;
        }
      }
      Shows(target);
    }

    /** Reads a block out in the same order. */
    method GetBlock(x: int, y: int, width: nat, height: nat, saved: array<rgb>)
      requires Valid() && height * width <= saved.Length
      modifies saved
      ensures saved[..height * width] == Snapshot(Img(), x, y, width, height)
      ensures forall i :: height * width <= i < saved.Length ==> saved[i] == old(saved[i])
    {
      ghost var shot := Snapshot(Img(), x, y, width, height);
      hide Snapshot, At;
      Pixels();
      var k := 0;
      for j := 0 to height
        invariant k == j * width <= height * width
        invariant forall q :: 0 <= q < k ==> saved[q] == shot[q]
        invariant forall i :: height * width <= i < saved.Length ==> saved[i] == old(saved[i])
      {
        RowsBelow(j, width, height);
        ghost var base := j * width;
        assert base + width == (j + 1) * width;
        for i := 0 to width
          invariant k == base + i
          invariant forall q :: 0 <= q < k ==> saved[q] == shot[q]
          invariant forall i :: height * width <= i < saved.Length ==> saved[i] == old(saved[i])
        {
          saved[k] := GetPixel(x + i, y + j);
          SnapshotAt(Img(), x, y, width, height, i, j);
          k := k + 1;
        }
      }
    }
  }

  lemma SnapshotAt(img: Image, x: int, y: int, width: nat, height: nat, i: nat, j: nat)
    requires img.Valid() && i < width && j < height
    ensures j * width + i < height * width
    ensures Snapshot(img, x, y, width, height)[j * width + i] == At(img, x + i, y + j)
  {
    FlatIndex(i, j, width, height);
  }
}
