/** Discontiguous buffers and the text they spell. */
module Segments {
  import opened Bytes

  ghost function Flatten(segments: seq<Text>): Text {
    if segments == [] then [] else Flatten(segments[..|segments| - 1]) + segments[|segments| - 1]
  }

  /** Where segment k starts in the text. */
  ghost function Offset(segments: seq<Text>, k: nat): (offset: nat)
    requires k <= |segments|
  {
    |Flatten(segments[..k])|
  }

  lemma {:induction false} FlattenPrefix(segments: seq<Text>, k: nat)
    requires k <= |segments|
    ensures Flatten(segments[..k]) <= Flatten(segments)
  {
    if k == |segments| {
      assert segments[..k] == segments;
    } else {
      var front := segments[..|segments| - 1];
      FlattenPrefix(front, k);
      assert front[..k] == segments[..k];
    }
  }

  /** Segment k occupies its place in the text. */
  lemma SegmentInText(segments: seq<Text>, k: nat)
    requires k < |segments|
    ensures Offset(segments, k) + |segments[k]| == Offset(segments, k + 1) <= |Flatten(segments)|
    ensures Flatten(segments)[Offset(segments, k)..Offset(segments, k + 1)] == segments[k]
    ensures k + 1 == |segments| ==> Offset(segments, k + 1) == |Flatten(segments)|
  {
    assert segments[..k + 1][..k] == segments[..k];
    FlattenPrefix(segments, k + 1);
    var upTo := Flatten(segments[..k + 1]);
    assert upTo == Flatten(segments[..k]) + segments[k];
    assert Flatten(segments)[..|upTo|] == upTo;
    if k + 1 == |segments| {
      assert segments[..k + 1] == segments;
    }
  }

  /** A stretch inside one segment reads the same in the text. */
  lemma InsideSegment(segments: seq<Text>, k: nat, a: nat, b: nat)
    requires k < |segments| && a <= b <= |segments[k]|
    ensures Offset(segments, k) + b <= |Flatten(segments)|
    ensures Flatten(segments)[Offset(segments, k) + a..Offset(segments, k) + b] == segments[k][a..b]
  {
    SegmentInText(segments, k);
    SliceOfSlice(Flatten(segments), Offset(segments, k), Offset(segments, k + 1), a, b);
  }

  /** The pieces of the text from offset a of segment i to offset b of a later segment j. */
  ghost function Pieces(segments: seq<Text>, i: nat, a: nat, j: nat, b: nat): seq<Text>
    requires i < j < |segments| && a <= |segments[i]| && b <= |segments[j]|
  {
    [segments[i][a..]] + segments[i + 1..j] + [segments[j][..b]]
  }

  lemma FlattenLast(segments: seq<Text>, last: Text)
    ensures Flatten(segments + [last]) == Flatten(segments) + last
  {
    assert (segments + [last])[..|segments|] == segments;
  }

  lemma FlattenNone()
    ensures Flatten([]) == []
  {
  }

  lemma FlattenOne(piece: Text)
    ensures Flatten([piece]) == piece
  {
    FlattenLast([], piece);
    assert [] + [piece] == [piece];
  }

  lemma DropOfConcat(x: Text, y: Text, k: nat)
    requires k <= |x|
    ensures (x + y)[k..] == x[k..] + y
  {
  }

  /** The pieces before the last one spell the text up to where segment j starts. */
  lemma {:induction false} PiecesBefore(segments: seq<Text>, i: nat, a: nat, j: nat)
    requires i < j <= |segments| && a <= |segments[i]|
    ensures Offset(segments, i) + a <= Offset(segments, j)
    ensures Flatten([segments[i][a..]] + segments[i + 1..j]) == Flatten(segments[..j])[Offset(segments, i) + a..]
    decreases j
  {
    hide Flatten;
    var before, last := Flatten(segments[..j - 1]), segments[j - 1];
    assert segments[..j] == segments[..j - 1] + [last];
    FlattenLast(segments[..j - 1], last);
    if j == i + 1 {
      FlattenOne(segments[i][a..]);
      assert [segments[i][a..]] + segments[i + 1..j] == [segments[i][a..]];
    } else {
      var pieces := [segments[i][a..]] + segments[i + 1..j - 1];
      PiecesBefore(segments, i, a, j - 1);
      FlattenLast(pieces, last);
      assert [segments[i][a..]] + segments[i + 1..j] == pieces + [last];
      DropOfConcat(before, last, Offset(segments, i) + a);
    }
  }

  /** The pieces of a stretch that straddles segments spell that stretch of the text. */
  lemma PiecesSpellText(segments: seq<Text>, i: nat, a: nat, j: nat, b: nat)
    requires i < j < |segments| && a <= |segments[i]| && b <= |segments[j]|
    ensures Offset(segments, i) + a <= Offset(segments, j) + b <= |Flatten(segments)|
    ensures Flatten(Pieces(segments, i, a, j, b)) ==
            Flatten(segments)[Offset(segments, i) + a..Offset(segments, j) + b]
  {
    PiecesBefore(segments, i, a, j);
    InsideSegment(segments, j, 0, b);
    FlattenLast([segments[i][a..]] + segments[i + 1..j], segments[j][..b]);
    FlattenPrefix(segments, j);
    JoinAt(Flatten(segments), Offset(segments, i) + a, Offset(segments, j), Offset(segments, j) + b);
    assert Flatten(segments)[..Offset(segments, j)] == Flatten(segments[..j]);
  }

  lemma JoinAt(text: Text, x: nat, y: nat, z: nat)
    requires x <= y <= z <= |text|
    ensures text[x..z] == text[..y][x..] + text[y..z]
  {
  }

  /** "text" laid over the buffers: buffer k occupies text[starts[k]..starts[k + 1]]. */
  ghost predicate LaidOver(text: Text, segments: seq<Text>, starts: seq<nat>) {
    && |starts| == |segments| + 1
    && starts[0] == 0
    && starts[|segments|] == |text|
    && forall k {:trigger segments[k]} :: 0 <= k < |segments| ==>
         && starts[k] + |segments[k]| == starts[k + 1] <= |text|
         && text[starts[k]..starts[k + 1]] == segments[k]
  }

  ghost function Offsets(segments: seq<Text>): (starts: seq<nat>)
    ensures LaidOver(Flatten(segments), segments, starts)
  {
    var starts := seq(|segments| + 1, k requires 0 <= k <= |segments| => Offset(segments, k));
    var text := Flatten(segments);
    assert segments[..|segments|] == segments && segments[..0] == [];
    assert forall k {:trigger segments[k]} :: 0 <= k < |segments| ==>
        starts[k] + |segments[k]| == starts[k + 1] <= |text| && text[starts[k]..starts[k + 1]] == segments[k] by {
      forall k {:trigger segments[k]} | 0 <= k < |segments|
        ensures starts[k] + |segments[k]| == starts[k + 1] <= |text| && text[starts[k]..starts[k + 1]] == segments[k]
      {
        SegmentInText(segments, k);
      }
    }
    starts
  }

  /** Only one text lies over given buffers, and each start is where the buffer begins in it. */
  lemma {:induction false} LaidOverIsFlatten(text: Text, segments: seq<Text>, starts: seq<nat>, k: nat)
    requires LaidOver(text, segments, starts) && k <= |segments|
    ensures starts[k] == Offset(segments, k) <= |text| && text[..starts[k]] == Flatten(segments[..k])
  {
    if k > 0 {
      LaidOverIsFlatten(text, segments, starts, k - 1);
      assert segments[..k] == segments[..k - 1] + [segments[k - 1]];
      FlattenLast(segments[..k - 1], segments[k - 1]);
      JoinAt(text, 0, starts[k - 1], starts[k]);
    }
  }

  /** A stretch inside one buffer. */
  lemma StretchOfSegment(text: Text, segments: seq<Text>, starts: seq<nat>, k: nat, a: nat, b: nat)
    requires LaidOver(text, segments, starts) && k < |segments| && a <= b <= |segments[k]|
    ensures starts[k] + b <= |text| && text[starts[k] + a..starts[k] + b] == segments[k][a..b]
  {
    var x, y := starts[k], starts[k + 1];
    assert segments[k] == text[x..y];
    assert text[x..y][a..b] == text[x + a..x + b];
  }

  /** The text between two places in different buffers. */
  lemma StretchOfText(text: Text, segments: seq<Text>, starts: seq<nat>, i: nat, a: nat, j: nat, b: nat)
    requires LaidOver(text, segments, starts)
    requires i < j < |segments| && a <= |segments[i]| && b <= |segments[j]|
    ensures starts[i] + a <= starts[j] + b <= |text|
    ensures Flatten(Pieces(segments, i, a, j, b)) == text[starts[i] + a..starts[j] + b]
  {
    PiecesSpellText(segments, i, a, j, b);
    LaidOverIsFlatten(text, segments, starts, i);
    LaidOverIsFlatten(text, segments, starts, j);
    LaidOverIsFlatten(text, segments, starts, |segments|);
    assert segments[..|segments|] == segments && text[..|text|] == text;
  }
}
