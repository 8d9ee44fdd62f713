/** The attribute columns: names and values in two streams of their own, read
    side by side. */
module AttrColumns {
  import opened Wrappers
  import opened ByteStrings
  import opened Varint
  import opened ListColumns

  /** Node `i`'s names and values, one pair at a time. */
  method AppendPairs(nmData: Text, vlData: Text, nmPos: nat, vlPos: nat, i: nat, deg: nat)
    returns (r: Option<(Parsed<seq<int32>>, Parsed<seq<int32>>)>)
    requires nmPos <= |nmData| && vlPos <= |vlData|
    ensures var names, vals := ReadList(Absolute, nmData[nmPos..], i, 0, deg, 0),
        ReadList(Absolute, vlData[vlPos..], i, 0, deg, 0);
      r == if names.Some? && vals.Some? then Some((names.value, vals.value)) else None
  {
    hide ReadEntry, ReadList;
    var nms: seq<int32>, vls: seq<int32> := [], [];
    var nmAt, vlAt := nmPos, vlPos;
    var nmPrev: int32, vlPrev: int32 := 0, 0;
    ReadStarts(Absolute, nmData[nmPos..], i, deg);
    ReadStarts(Absolute, vlData[vlPos..], i, deg);
    var j := 0;
    while j < deg
      invariant 0 <= j <= deg && nmPos <= nmAt <= |nmData| && vlPos <= vlAt <= |vlData|
      invariant Continued(nms, nmAt - nmPos, ReadList(Absolute, nmData[nmAt..], i, j, deg, nmPrev)) ==
                ReadList(Absolute, nmData[nmPos..], i, 0, deg, 0)
      invariant Continued(vls, vlAt - vlPos, ReadList(Absolute, vlData[vlAt..], i, j, deg, vlPrev)) ==
                ReadList(Absolute, vlData[vlPos..], i, 0, deg, 0)
    {
      ReadMore(Absolute, nmData[nmAt..], i, j, deg, nmPrev, nms, nmAt - nmPos);
      ReadMore(Absolute, vlData[vlAt..], i, j, deg, vlPrev, vls, vlAt - vlPos);
      var name := ReadEntry(Absolute, nmData[nmAt..], i, j, nmPrev);
      if name.None? {
        return None;
      }
      assert nmData[nmAt..][name.value.size..] == nmData[nmAt + name.value.size..];
      nmAt, nms, nmPrev := nmAt + name.value.size, nms + [name.value.value], name.value.value;
      var val := ReadEntry(Absolute, vlData[vlAt..], i, j, vlPrev);
      if val.None? {
        return None;
      }
      assert vlData[vlAt..][val.value.size..] == vlData[vlAt + val.value.size..];
      vlAt, vls, vlPrev := vlAt + val.value.size, vls + [val.value.value], val.value.value;
      j := j + 1;
    }
    ReadEnds(Absolute, nmData[nmAt..], i, deg, nmPrev, nms, nmAt - nmPos);
    ReadEnds(Absolute, vlData[vlAt..], i, deg, vlPrev, vls, vlAt - vlPos);
    r := Some((Parsed(nms, nmAt - nmPos), Parsed(vls, vlAt - vlPos)));
  }

  /** Both streams at once yield what each yields by itself, or nothing when
      either of them is unreadable. */
  method DecodeAttrColumns(degs: seq<int32>, nmData: Text, vlData: Text)
    returns (r: Option<(seq<seq<int32>>, seq<seq<int32>>)>)
    ensures var names, vals := Lists(Absolute, degs, nmData), Lists(Absolute, degs, vlData);
      r == if names.Some? && vals.Some? then Some((names.value.lists, vals.value.lists)) else None
  {
    hide ReadList, Walk;
    var nmValid := ValidateDegs(degs, |nmData|);
    if !nmValid {
      return None;
    }
    var vlValid := ValidateDegs(degs, |vlData|);
    if !vlValid {
      return None;
    }
    WalkStarts(Absolute, nmData, degs);
    WalkStarts(Absolute, vlData, degs);
    var names: seq<seq<int32>>, vals: seq<seq<int32>> := [], [];
    ghost var nmOffsets: seq<nat>, vlOffsets: seq<nat> := [], [];
    var nmPos, vlPos := 0, 0;
    for i := 0 to |degs|
      invariant 0 <= nmPos <= |nmData| && 0 <= vlPos <= |vlData|
      invariant Onward(names, nmOffsets, Walk(Absolute, nmData, degs, i, nmPos)) == Walk(Absolute, nmData, degs, 0, 0)
      invariant Onward(vals, vlOffsets, Walk(Absolute, vlData, degs, i, vlPos)) == Walk(Absolute, vlData, degs, 0, 0)
    {
      WalkMore(Absolute, nmData, degs, i, nmPos, names, nmOffsets);
      WalkMore(Absolute, vlData, degs, i, vlPos, vals, vlOffsets);
      var read := AppendPairs(nmData, vlData, nmPos, vlPos, i, degs[i]);
      if read.None? {
        return None;
      }
      nmOffsets, vlOffsets := nmOffsets + [nmPos], vlOffsets + [vlPos];
      names, vals := names + [read.value.0.value], vals + [read.value.1.value];
      nmPos, vlPos := nmPos + read.value.0.size, vlPos + read.value.1.size;
    }
    WalkEnds(Absolute, nmData, degs, nmPos, names, nmOffsets);
    WalkEnds(Absolute, vlData, degs, vlPos, vals, vlOffsets);
    r := Some((names, vals));
  }
}
