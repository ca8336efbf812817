/** The name reduction `reducedName` of SimFileCompare.cpp, applied to every name
    read from the DD4Hep file before it is tallied: it drops everything up to and
    including the first ':', cuts the rest before the '_' that precedes the first
    recognised "shape" segment, and puts a final "_refl" back.

    The scan is modelled as written, including its three quirks:
    - a segment is only checked for "shape" while some '_' still occurs at or after
      the scan position, so a "shape" segment with no later '_' is never recognised;
    - the first position checked is the one right after the colon (or position 0),
      not one right after an underscore;
    - when that first position is recognised, the unsigned length
      `last - first - 1` wraps round and the whole remainder is kept. */
module ReducedNames {

  datatype Option<T> = None | Some(value: T)

  const Shape: string := "shape"
  const Refl: string := "_refl"

  /** Position of the first `c` at or after `from`, as `std::string::find(c, from)`;
      `None` plays the part of `npos`. */
  function FindFrom(s: string, c: char, from: nat): (r: Option<nat>)
    ensures r.Some? ==> from <= r.value < |s| && s[r.value] == c
    ensures r.Some? ==> forall i :: from <= i < r.value ==> s[i] != c
    ensures r.None? <==> forall i :: from <= i < |s| ==> s[i] != c
    decreases |s| - from
  {
    if from >= |s| then None
    else if s[from] == c then Some(from)
    else FindFrom(s, c, from + 1)
  }

  /** `first`: the position just after the first colon, or 0 when there is none. */
  function NameStart(name: string): (first: nat)
    ensures first <= |name|
    ensures ':' !in name ==> first == 0
    ensures ':' in name ==> 0 < first <= |name| && name[first - 1] == ':' && ':' !in name[..first - 1]
  {
    match FindFrom(name, ':', 0)
    case None => 0
    case Some(i) =>
      assert forall j :: 0 <= j < i ==> name[..i][j] == name[j];
      i + 1
  }

  /** The test of one scan position: "shape" starts at `loc` and is not the end of
      the name. */
  predicate ShapeAt(name: string, loc: nat)
  {
    loc + 5 < |name| && name[loc..loc + 5] == Shape
  }

  predicate EndsWith(s: string, suffix: string)
  {
    |suffix| <= |s| && s[|s| - |suffix|..] == suffix
  }

  /** The `while (1)` scan: from scan position `loc`, the value `last` ends up with.
      `|name| + 1` means no segment was recognised; otherwise it is the position of
      the recognised "shape". */
  function Scan(name: string, loc: nat): (last: nat)
    requires loc <= |name|
    ensures last == |name| + 1 || loc <= last < |name|
    decreases |name| + 1 - loc
  {
    match FindFrom(name, '_', loc)
    case None => |name| + 1
    case Some(u) =>
      // `find` returns a position inside the name, so the `loc > name.size()`
      // exit of the loop can never be taken and is not modelled
      if ShapeAt(name, loc) then loc else Scan(name, u + 1)
  }

  /** The name reduction itself. */
  function ReducedName(name: string): string
  {
    var first := NameStart(name);
    Assemble(name, first, Scan(name, first))
  }

  /** The result once `first` and `last` are known: the substring of length
      `last - first - 1` from `first`, then "_refl" again when a segment was
      recognised and the name ends with it. */
  function Assemble(name: string, first: nat, last: nat): string
    requires first <= |name|
    requires last == |name| + 1 || first <= last < |name|
  {
    var nam :=
      if last == |name| + 1 then name[first..]       // length last - first - 1 is the whole rest
      else if last == first then name[first..]       // unsigned wrap: the length is huge, substr keeps the rest
      else name[first..last - 1];                    // cut before the '_' preceding "shape"
    if last < |name| && EndsWith(name, Refl) then nam + Refl else nam
  }

  /** The `while (1)` loop as written, from scan position `first`. */
  method ScanLoop(name: string, first: nat) returns (last: nat)
    requires first <= |name|
    ensures last == Scan(name, first)
  {
    last := |name| + 1;
    var loc := first;
    while true
      invariant first <= loc <= |name|
      invariant last == |name| + 1
      invariant Scan(name, loc) == Scan(name, first)
      decreases |name| + 1 - loc
    {
      var u := FindFrom(name, '_', loc);
      if u.None? {
        break;
      }
      if ShapeAt(name, loc) {
        last := loc;
        break;
      }
      loc := u.value + 1;
      if loc > |name| {
        break;
      }
    }
  }

  /** The whole of `reducedName` as written, with the scan as the source's loop. */
  method ComputeReducedName(name: string) returns (nam: string)
    ensures nam == ReducedName(name)
  {
    var first := NameStart(name);
    var last := ScanLoop(name, first);
    assert ReducedName(name) == Assemble(name, first, last);
    if last == |name| + 1 || last == first {
      nam := name[first..];
    } else {
      nam := name[first..last - 1];
    }
    if last < |name| && EndsWith(name, Refl) {
      nam := nam + Refl;
    }
  }

  // ---------------------------------------------------------------------------
  // Independent description of what the scan recognises.

  /** A position the scan can test when it starts at `from`: `from` itself, or a
      position right after an underscore. */
  ghost predicate SegmentStart(name: string, from: nat, p: nat)
  {
    from <= p <= |name| && (p == from || name[p - 1] == '_')
  }

  /** Some '_' occurs at or after `p`. */
  ghost predicate UnderscoreFrom(name: string, p: nat)
  {
    exists i :: p <= i < |name| && name[i] == '_'
  }

  /** The test the scan applies at `p`: "shape" starts there, something follows it,
      and some '_' occurs at or after `p`. */
  ghost predicate Recognised(name: string, p: nat)
  {
    ShapeAt(name, p) && UnderscoreFrom(name, p)
  }

  /** The scan returns the FIRST recognised segment start, and `|name| + 1` exactly
      when there is none. */
  lemma {:induction false} ScanFindsFirstShape(name: string, loc: nat)
    requires loc <= |name|
    ensures Scan(name, loc) <= |name| ==>
              SegmentStart(name, loc, Scan(name, loc)) && Recognised(name, Scan(name, loc))
    ensures forall p: nat :: SegmentStart(name, loc, p) && p < Scan(name, loc) ==> !Recognised(name, p)
    decreases |name| + 1 - loc
  {
    var u := FindFrom(name, '_', loc);
    if u.None? {
      NothingRecognisedWithoutUnderscore(name, loc);
    } else if ShapeAt(name, loc) {
      assert name[u.value] == '_';
      assert Recognised(name, loc);
    } else {
      var next := u.value + 1;
      assert Scan(name, loc) == Scan(name, next);
      ScanFindsFirstShape(name, next);
      forall p: nat | SegmentStart(name, loc, p) && p != loc
        ensures SegmentStart(name, next, p)
      {
        SegmentAfterUnderscore(name, loc, next, p);
      }
    }
  }

  /** With no '_' at or after `loc`, no position from `loc` on is recognised. */
  lemma NothingRecognisedWithoutUnderscore(name: string, loc: nat)
    requires FindFrom(name, '_', loc).None?
    ensures forall p: nat :: p >= loc ==> !Recognised(name, p)
  {
  }

  /** A segment start after `loc` other than `loc` itself lies after the first
      '_' found from `loc`. */
  lemma SegmentAfterUnderscore(name: string, loc: nat, next: nat, p: nat)
    requires FindFrom(name, '_', loc) == Some(next - 1)
    requires SegmentStart(name, loc, p) && p != loc
    ensures SegmentStart(name, next, p)
  {
    assert name[p - 1] == '_';
  }

  /** The reduction described without the scan: if no segment start after the
      colon is recognised the remainder after the colon is kept whole; otherwise
      the remainder is cut before the '_' preceding the first recognised segment
      (or kept whole when that segment is the first one), and "_refl" is added
      back when the name ended with it. */
  lemma ReducedNameCharacterised(name: string)
    ensures var first := NameStart(name);
            (forall p: nat :: SegmentStart(name, first, p) ==> !Recognised(name, p)) ==>
              ReducedName(name) == name[first..]
    ensures var first := NameStart(name);
            forall p: nat :: FirstRecognised(name, first, p) ==>
              ReducedName(name) == (if p == first then name[first..] else name[first..p - 1]) +
                                   (if EndsWith(name, Refl) then Refl else "")
  {
    var first := NameStart(name);
    ScanFindsFirstShape(name, first);
    forall p: nat | FirstRecognised(name, first, p)
      ensures ReducedName(name) == (if p == first then name[first..] else name[first..p - 1]) +
                                   (if EndsWith(name, Refl) then Refl else "")
    {
      ReducedNameCutsAt(name, p);
    }
  }

  /** `p` is the first recognised segment start at or after `from`. */
  ghost predicate FirstRecognised(name: string, from: nat, p: nat)
  {
    && SegmentStart(name, from, p)
    && Recognised(name, p)
    && forall q: nat :: SegmentStart(name, from, q) && q < p ==> !Recognised(name, q)
  }

  lemma ReducedNameCutsAt(name: string, p: nat)
    requires FirstRecognised(name, NameStart(name), p)
    ensures ReducedName(name) == (if p == NameStart(name) then name[NameStart(name)..] else name[NameStart(name)..p - 1]) +
                                 (if EndsWith(name, Refl) then Refl else "")
  {
    ScanFindsFirstShape(name, NameStart(name));
  }

  /** A name with no colon and no recognised segment comes back unchanged. */
  lemma ReducedNameUnchanged(name: string)
    requires ':' !in name
    requires forall p: nat :: SegmentStart(name, 0, p) ==> !Recognised(name, p)
    ensures ReducedName(name) == name
  {
    ReducedNameCharacterised(name);
    assert name[0..] == name;
  }

  /** Everything up to and including the first colon is dropped, later colons are
      kept: the result is a prefix of what follows the first colon, possibly with
      "_refl" added. */
  lemma ReducedNameDropsPrefix(pre: string, rest: string)
    requires ':' !in pre
    ensures var r := ReducedName(pre + ":" + rest);
            r <= rest || (|r| >= 5 && r[..|r| - 5] <= rest && r[|r| - 5..] == Refl)
    ensures (forall p: nat :: SegmentStart(pre + ":" + rest, |pre| + 1, p) ==> !Recognised(pre + ":" + rest, p)) ==>
              ReducedName(pre + ":" + rest) == rest
  {
    var name := pre + ":" + rest;
    FirstColon(name, pre, rest);
    assert name[|pre| + 1..] == rest;
    ReducedNameCharacterised(name);
  }

  lemma FirstColon(name: string, pre: string, rest: string)
    requires name == pre + ":" + rest
    requires ':' !in pre
    ensures NameStart(name) == |pre| + 1
  {
    assert name[|pre|] == ':';
    assert forall j :: 0 <= j < |pre| ==> name[j] == pre[j];
  }

  /** Where the parts of `pre + ":" + base + "_" + rest` sit, position by position. */
  lemma {:induction false} NameLayout(name: string, pre: string, base: string, rest: string)
    requires name == pre + ":" + base + "_" + rest
    ensures var first := |pre| + 1;
            var u := first + |base|;
            && |name| == u + 1 + |rest|
            && name[|pre|] == ':'
            && (forall k :: 0 <= k < |pre| ==> name[k] == pre[k])
            && (forall k :: first <= k < u ==> name[k] == base[k - first])
            && name[u] == '_'
            && (forall k :: u < k < |name| ==> name[k] == rest[k - u - 1])
  {
  }

  /** With `base` free of '_' and not starting with "shape", no position of `base`
      is a recognised segment start. */
  lemma NoShapeInBase(name: string, pre: string, base: string, rest: string)
    requires name == pre + ":" + base + "_" + rest
    requires '_' !in base
    requires |base| < 5 || base[..5] != Shape
    ensures forall q: nat :: SegmentStart(name, |pre| + 1, q) && q <= |pre| + 1 + |base| ==> !Recognised(name, q)
  {
    var first := |pre| + 1;
    var u := first + |base|;
    NameLayout(name, pre, base, rest);
    forall q: nat | SegmentStart(name, first, q) && q <= u
      ensures !Recognised(name, q)
    {
      if q == first && q + 5 < |name| {
        if |base| < 5 {
          assert name[q..q + 5][|base|] == '_';
        } else {
          assert name[q..q + 5] == base[..5];
        }
      }
    }
  }

  lemma BaseSlice(name: string, pre: string, base: string, rest: string)
    requires name == pre + ":" + base + "_" + rest
    ensures name[|pre| + 1..|pre| + 1 + |base|] == base
  {
    NameLayout(name, pre, base, rest);
  }

  lemma ShapeAfterBase(name: string, pre: string, base: string, tail: string)
    requires name == pre + ":" + base + "_shape" + tail
    requires '_' in tail
    ensures SegmentStart(name, |pre| + 1, |pre| + 2 + |base|)
    ensures Recognised(name, |pre| + 2 + |base|)
  {
    var rest := "shape" + tail;
    var p := |pre| + 2 + |base|;
    assert name[p..] == rest by {
      assert name == (pre + ":" + base + "_") + rest;
    }
    assert ShapeAt(name, p) by {
      assert name[p..p + 5] == rest[..5];
    }
    assert UnderscoreFrom(name, p) by {
      var i :| 0 <= i < |tail| && tail[i] == '_';
      assert name[p + 5 + i] == rest[5 + i];
    }
  }

  /** When the first recognised segment start lies right after the first '_' of
      the remainder (a segment "shape..." with a later '_', and `base` neither
      containing '_' nor starting with "shape"), the name is cut just before that
      underscore: "ns:base_shape1_x" becomes "base". */
  lemma ReducedNameTruncatesAtShape(pre: string, base: string, tail: string)
    requires ':' !in pre
    requires '_' !in base
    requires |base| < 5 || base[..5] != Shape
    requires '_' in tail
    ensures var name := pre + ":" + base + "_shape" + tail;
            ReducedName(name) == base + (if EndsWith(name, Refl) then Refl else "")
  {
    var name := pre + ":" + base + "_shape" + tail;
    var first := |pre| + 1;
    var p := first + |base| + 1;
    ShapeSegmentLayout(name, pre, base, tail);
    ReducedNameCutsAt(name, p);
  }

  lemma ShapeSegmentLayout(name: string, pre: string, base: string, tail: string)
    requires name == pre + ":" + base + "_shape" + tail
    requires ':' !in pre
    requires '_' !in base
    requires |base| < 5 || base[..5] != Shape
    requires '_' in tail
    ensures NameStart(name) == |pre| + 1
    ensures FirstRecognised(name, |pre| + 1, |pre| + 2 + |base|)
    ensures name[|pre| + 1..|pre| + 1 + |base|] == base
  {
    var rest := "shape" + tail;
    assert name == pre + ":" + base + "_" + rest;
    var first := |pre| + 1;
    var p := first + |base| + 1;
    FirstColon(name, pre, base + "_" + rest);
    BaseSlice(name, pre, base, rest);
    ShapeAfterBase(name, pre, base, tail);
    NoShapeInBase(name, pre, base, rest);
    assert FirstRecognised(name, first, p);
  }

  lemma ExampleTruncation()
    ensures ReducedName("ns:base_shape1_x") == "base"
  {
    assert "ns:base_shape1_x" == "ns" + ":" + "base" + "_shape" + "1_x";
    assert "1_x"[1] == '_';
    ReducedNameTruncatesAtShape("ns", "base", "1_x");
    assert !EndsWith("ns:base_shape1_x", Refl);
  }

  /** A "shape" segment with no '_' after it is never recognised, so the whole
      remainder after the colon is kept: "ns:base_shapeXYZ" stays "base_shapeXYZ".
      When `base` itself starts with "shape" it is recognised at the first position,
      and the unsigned wrap keeps the whole remainder as well. */
  lemma ReducedNameIgnoresFinalShape(pre: string, base: string, tail: string)
    requires ':' !in pre
    requires '_' !in base
    requires '_' !in tail
    ensures ReducedName(pre + ":" + base + "_shape" + tail) == base + "_shape" + tail
  {
    var name := pre + ":" + base + "_shape" + tail;
    var rest := base + "_shape" + tail;
    NoUnderscoreAfterBase(name, pre, base, tail);
    if |base| >= 5 && base[..5] == Shape {
      ShapeBaseLayout(name, pre, base, tail);
      ReducedNameCutsAt(name, |pre| + 1);
    } else {
      NoShapeInBase(name, pre, base, "shape" + tail);
      assert name == pre + ":" + rest;
      ReducedNameDropsPrefix(pre, rest);
    }
  }

  /** `pre:base_shape<tail>` with `base` starting with "shape": the first position
      after the colon is the first recognised segment start, and the name does not
      end in "_refl". */
  lemma ShapeBaseLayout(name: string, pre: string, base: string, tail: string)
    requires name == pre + ":" + base + "_shape" + tail
    requires ':' !in pre
    requires '_' !in tail
    requires |base| >= 5 && base[..5] == Shape
    ensures NameStart(name) == |pre| + 1
    ensures FirstRecognised(name, |pre| + 1, |pre| + 1)
    ensures name[|pre| + 1..] == base + "_shape" + tail
    ensures !EndsWith(name, Refl)
  {
    var rest := base + "_shape" + tail;
    var first := |pre| + 1;
    FirstColon(name, pre, rest);
    assert name[first..] == rest by {
      assert name == (pre + ":") + rest;
    }
    assert ShapeAt(name, first) by {
      assert name[first..first + 5] == rest[..5] == base[..5];
    }
    assert UnderscoreFrom(name, first) by {
      assert name[first + |base|] == rest[|base|] == '_';
    }
    NoUnderscoreAfterBase(name, pre, base, tail);
    assert name[|name| - 5] != '_';
    assert Refl[0] == '_';
  }

  lemma NoUnderscoreAfterBase(name: string, pre: string, base: string, tail: string)
    requires name == pre + ":" + base + "_shape" + tail
    requires '_' !in tail
    ensures forall q: nat :: q > |pre| + 1 + |base| ==> !UnderscoreFrom(name, q)
  {
    var u := |pre| + 1 + |base|;
    var rest := "shape" + tail;
    NameLayout(name, pre, base, rest);
    assert '_' !in rest;
    forall k | u < k < |name|
      ensures name[k] != '_'
    {
      assert name[k] == rest[k - u - 1];
    }
  }

  lemma ExampleFinalShape()
    ensures ReducedName("ns:base_shapeXYZ") == "base_shapeXYZ"
  {
    assert "base" + "_shape" + "XYZ" == "base_shapeXYZ";
    assert "ns:base_shapeXYZ" == "ns" + ":" + "base" + "_shape" + "XYZ";
    assert ':' !in "ns" && '_' !in "base" && '_' !in "XYZ";
    ReducedNameIgnoresFinalShape("ns", "base", "XYZ");
  }

  /** When the name after the colon itself starts with a recognised "shape", the
      unsigned length wraps and the whole remainder is kept, with "_refl" added
      once more if the name ended in it: "ns:shape_x_refl" becomes
      "shape_x_refl_refl". */
  lemma ReducedNameShapeAfterColon(pre: string, tail: string)
    requires ':' !in pre
    requires '_' in tail
    ensures var name := pre + ":" + "shape" + tail;
            ReducedName(name) == "shape" + tail + (if EndsWith(name, Refl) then Refl else "")
  {
    var name := pre + ":" + "shape" + tail;
    ShapeAfterColonLayout(name, pre, tail);
    ReducedNameCutsAt(name, |pre| + 1);
  }

  lemma ShapeAfterColonLayout(name: string, pre: string, tail: string)
    requires name == pre + ":" + "shape" + tail
    requires ':' !in pre
    requires '_' in tail
    ensures NameStart(name) == |pre| + 1
    ensures FirstRecognised(name, |pre| + 1, |pre| + 1)
    ensures name[|pre| + 1..] == "shape" + tail
  {
    var rest := "shape" + tail;
    var first := |pre| + 1;
    FirstColon(name, pre, rest);
    assert name[first..] == rest by {
      assert name == (pre + ":") + rest;
    }
    assert ShapeAt(name, first) by {
      assert name[first..first + 5] == rest[..5];
    }
    assert UnderscoreFrom(name, first) by {
      var i :| 0 <= i < |tail| && tail[i] == '_';
      assert name[first + 5 + i] == rest[5 + i];
    }
  }

  lemma ExampleShapeAfterColon()
    ensures ReducedName("ns:shape_x_refl") == "shape_x_refl_refl"
  {
    var name := "ns:shape_x_refl";
    assert "shape" + "_x_refl" + Refl == "shape_x_refl_refl";
    assert name == "ns" + ":" + "shape" + "_x_refl";
    assert name[|name| - 5..] == Refl;
    assert "_x_refl"[0] == '_';
    ReducedNameShapeAfterColon("ns", "_x_refl");
  }

  /** A name ending in "_refl" keeps that ending; "_refl" is added by the reduction
      only when a segment was recognised and the name ends in "_refl". */
  lemma ReducedNameKeepsRefl(name: string)
    ensures EndsWith(name, Refl) ==> EndsWith(ReducedName(name), Refl)
    ensures var first := NameStart(name);
            !EndsWith(name, Refl) || (forall p: nat :: SegmentStart(name, first, p) ==> !Recognised(name, p)) ==>
              ReducedName(name) <= name[first..]
  {
    var first := NameStart(name);
    ScanFindsFirstShape(name, first);
    var last := Scan(name, first);
    assert ReducedName(name) == Assemble(name, first, last);
    if last == |name| + 1 && EndsWith(name, Refl) {
      ReflAfterColon(name);
      assert name[first..][|name| - first - 5..] == Refl;
    }
  }

  /** The colon that ends the prefix comes before a final "_refl". */
  lemma ReflAfterColon(name: string)
    requires EndsWith(name, Refl)
    ensures NameStart(name) + 5 <= |name|
  {
  }
}
