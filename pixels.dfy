/** The part of `process_image` the two host scripts share: an 800 x 480
    grid of 8-bit grayscale samples is flattened row by row and every sample
    is quantized with `np.digitize` against the thresholds 64, 128 and 192
    into a 2-bit level; the levels are then taken four at a time
    (`reshape(-1, 4)`). The two scripts differ only in how they pack a group
    of four into a byte (modules SendImage and ServerMain). */
module Pixels {
  import opened Hex

  const WIDTH: nat := 800
  const HEIGHT: nat := 480
  /** The size both scripts check the packed frame against. */
  const EXPECTED_SIZE: nat := 96000
  const THRESHOLDS: seq<int> := [64, 128, 192]

  /** A 2-bit gray level. */
  type Level = x: int | 0 <= x < 4

  /** Four consecutive levels, one row of `flat.reshape(-1, 4)`. */
  type Group = g: seq<Level> | |g| == 4 witness [0, 0, 0, 0]

  /** A grayscale raster after the resize: HEIGHT rows of WIDTH samples. */
  predicate IsRaster(img: seq<seq<byte>>) {
    |img| == HEIGHT && Rows(img)
  }

  /** `flatten()` of a 2-D array: the rows one after another. */
  function Flatten(img: seq<seq<byte>>): seq<byte> {
    if img == [] then [] else img[0] + Flatten(img[1..])
  }

  predicate Rows(img: seq<seq<byte>>) {
    forall r :: 0 <= r < |img| ==> |img[r]| == WIDTH
  }

  lemma {:induction false} FlattenLength(img: seq<seq<byte>>)
    requires Rows(img)
    ensures |Flatten(img)| == |img| * WIDTH
  {
    if img != [] {
      FlattenLength(img[1..]);
    }
  }

  /** Sample `c` of row `r` sits at offset `r * WIDTH + c` of the flattened
      raster (row-major order). */
  lemma {:induction false} FlattenAt(img: seq<seq<byte>>, r: nat, c: nat)
    requires Rows(img) && r < |img| && c < WIDTH
    ensures |Flatten(img)| == |img| * WIDTH && Flatten(img)[r * WIDTH + c] == img[r][c]
  {
    FlattenLength(img);
    if r > 0 {
      FlattenAt(img[1..], r - 1, c);
      assert Flatten(img)[r * WIDTH + c] == Flatten(img[1..])[(r - 1) * WIDTH + c];
    }
  }

  /** `np.digitize(x, bins)` with `right=False`, for increasing bins such as
      the hosts' `[64, 128, 192]`: how many bins lie at or below `x`. (numpy
      counts differently for decreasing bins, which the hosts do not use.) */
  function Digitize(x: int, bins: seq<int>): (i: nat)
    ensures i <= |bins|
  {
    if bins == [] then 0 else (if bins[0] <= x then 1 else 0) + Digitize(x, bins[1..])
  }

  predicate Increasing(bins: seq<int>) {
    forall i, j :: 0 <= i < j < |bins| ==> bins[i] < bins[j]
  }

  lemma {:induction false} DigitizeNoneBelow(x: int, bins: seq<int>)
    requires forall k :: 0 <= k < |bins| ==> x < bins[k]
    ensures Digitize(x, bins) == 0
  {
    if bins != [] {
      DigitizeNoneBelow(x, bins[1..]);
    }
  }

  /** For increasing bins the index is the one numpy documents:
      `bins[i - 1] <= x < bins[i]`, with the missing bound dropped at either
      end. */
  lemma {:induction false} DigitizeBrackets(x: int, bins: seq<int>)
    requires Increasing(bins)
    ensures var i := Digitize(x, bins);
      (i == 0 || bins[i - 1] <= x) && (i == |bins| || x < bins[i])
  {
    if bins != [] {
      if bins[0] <= x {
        DigitizeBrackets(x, bins[1..]);
      } else {
        DigitizeNoneBelow(x, bins[1..]);
      }
    }
  }

  /** Digitizing never maps a larger value to a smaller index; for the
      counting above this holds whatever the bins. */
  lemma {:induction false} DigitizeMonotone(x: int, y: int, bins: seq<int>)
    requires x <= y
    ensures Digitize(x, bins) <= Digitize(y, bins)
  {
    if bins != [] {
      DigitizeMonotone(x, y, bins[1..]);
    }
  }

  /** The quantization both versions of `process_image` apply. */
  function Quantize(v: byte): (l: Level)
    ensures v as int < 64 ==> l == 0
    ensures 64 <= v as int < 128 ==> l == 1
    ensures 128 <= v as int < 192 ==> l == 2
    ensures 192 <= v as int ==> l == 3
  {
    var x := v as int;
    assert Digitize(x, [192]) == if 192 <= x then 1 else 0 by {
      assert [192][1..] == [];
    }
    assert Digitize(x, [128, 192]) == (if 128 <= x then 1 else 0) + Digitize(x, [192]) by {
      assert [128, 192][1..] == [192];
    }
    assert Digitize(x, THRESHOLDS) == (if 64 <= x then 1 else 0) + Digitize(x, [128, 192]) by {
      assert THRESHOLDS[1..] == [128, 192];
    }
    Digitize(x, THRESHOLDS)
  }

  lemma QuantizeMonotone(v: byte, w: byte)
    requires v <= w
    ensures Quantize(v) <= Quantize(w)
  {
    DigitizeMonotone(v as int, w as int, THRESHOLDS);
  }

  /** The flattened, quantized raster. */
  function Levels(img: seq<seq<byte>>): (ls: seq<Level>)
    requires Rows(img)
    ensures |ls| == |img| * WIDTH
  {
    var flat := Flatten(img);
    FlattenLength(img);
    seq(|flat|, k requires 0 <= k < |flat| => Quantize(flat[k]))
  }

  /** Level `r * WIDTH + c` is the quantized sample `c` of row `r`. */
  lemma LevelsAt(img: seq<seq<byte>>, r: nat, c: nat)
    requires Rows(img) && r < |img| && c < WIDTH
    ensures Levels(img)[r * WIDTH + c] == Quantize(img[r][c])
  {
    FlattenAt(img, r, c);
  }

  /** Row `g` of `flat.reshape(-1, 4)`. */
  function GroupAt(ls: seq<Level>, g: nat): Group
    requires 4 * g + 4 <= |ls|
  {
    ls[4 * g..4 * g + 4]
  }

  /** Group `r * (WIDTH / 4) + q` of the levels holds the quantized samples
      `4q` to `4q + 3` of row `r`, in order. */
  lemma GroupLevels(img: seq<seq<byte>>, r: nat, q: nat)
    requires Rows(img) && r < |img| && q < WIDTH / 4
    ensures 4 * (r * (WIDTH / 4) + q) + 4 <= |Levels(img)|
    ensures var p := GroupAt(Levels(img), r * (WIDTH / 4) + q);
      && p[0] == Quantize(img[r][4 * q]) && p[1] == Quantize(img[r][4 * q + 1])
      && p[2] == Quantize(img[r][4 * q + 2]) && p[3] == Quantize(img[r][4 * q + 3])
  {
    var ls := Levels(img);
    assert |ls| == |img| * 800 && r * 800 + 800 <= |img| * 800;
    var g := r * 200 + q;
    assert 4 * g + 1 == r * 800 + (4 * q + 1);
    assert 4 * g + 2 == r * 800 + (4 * q + 2);
    assert 4 * g + 3 == r * 800 + (4 * q + 3);
    LevelsAt(img, r, 4 * q);
    LevelsAt(img, r, 4 * q + 1);
    LevelsAt(img, r, 4 * q + 2);
    LevelsAt(img, r, 4 * q + 3);
  }

  /** One numpy int64 lane holding a level. */
  function Lane(l: Level): (w: bv64)
    ensures w < 4
  {
    if l == 0 then 0 else if l == 1 then 1 else if l == 2 then 2 else 3
  }

  /** `astype(np.uint8)`: keeps the low eight bits of a lane. */
  function ToUint8(w: bv64): byte {
    (w & 0xFF) as byte
  }

  /** `packed` over the whole level sequence for a given bit order: byte `g`
      packs group `g`. */
  function PackGroups(ls: seq<Level>, pack: Group -> byte): (frame: seq<byte>)
    requires |ls| % 4 == 0
    ensures |frame| == |ls| / 4
    ensures forall g :: 0 <= g < |frame| ==> frame[g] == pack(GroupAt(ls, g))
  {
    seq(|ls| / 4, g requires 0 <= g < |ls| / 4 => pack(GroupAt(ls, g)))
  }

  /** The levels a frame stands for under a given unpacking, four per byte. */
  function UnpackGroups(frame: seq<byte>, unpack: byte -> Group): (ls: seq<Level>)
    ensures |ls| == 4 * |frame|
    ensures forall k :: 0 <= k < |ls| ==> ls[k] == unpack(frame[k / 4])[k % 4]
  {
    seq(4 * |frame|, k requires 0 <= k < 4 * |frame| => unpack(frame[k / 4])[k % 4])
  }

  /** When `unpack` undoes `pack` on every group, unpacking a packed level
      sequence gives back every level, in order. */
  lemma UnpackPackGroups(ls: seq<Level>, pack: Group -> byte, unpack: byte -> Group)
    requires |ls| % 4 == 0
    requires forall p: Group :: unpack(pack(p)) == p
    ensures UnpackGroups(PackGroups(ls, pack), unpack) == ls
  {
    var frame := PackGroups(ls, pack);
    var d := UnpackGroups(frame, unpack);
    forall k | 0 <= k < |ls|
      ensures d[k] == ls[k]
    {
      var g := k / 4;
      assert unpack(frame[g]) == ls[4 * g..4 * g + 4];
    }
  }

  /** The 2-bit field at bit position `shift` of a packed byte, as a level. */
  function Field(b: byte, shift: bv8): (l: Level)
    requires shift < 8
  {
    var f := (b >> shift) & 3;
    if f == 0 then 0 else if f == 1 then 1 else if f == 2 then 2 else 3
  }
}
