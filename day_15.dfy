/** Advent of Code 2023, day 15 (advent_of_code/src/day_15.rs): the
    HASH of a string, and the HASHMAP procedure that files lenses into
    256 boxes by the HASH of their label, followed by the focusing power
    of the result. Steps are the comma-separated pieces of the input, as
    bytes. */
module Day15 {
  import opened Common

  type Bytes = seq<byte>

  const DASH: byte := 45    // '-'
  const EQUALS: byte := 61  // '='
  const PLUS: byte := 43    // '+'
  const ZERO: byte := 48    // '0'
  const BOX_COUNT: nat := 256

  // ---------------------------------------------------------------
  // HASH

  /** The fold of `ascii_hash` from accumulator `acc`: add the byte,
      multiply by 17, keep the remainder modulo 256. The accumulator is a
      `u32`; it stays below 256, so no step overflows. */
  function HashFrom(acc: u32, s: Bytes): (r: u32)
    requires acc < 256
    ensures r < 256
    decreases |s|
  {
    if |s| == 0 then acc
    else
      var added: u32 := acc + s[0];
      var multiplied: u32 := added * 17;
      HashFrom(multiplied % 256, s[1..])
  }

  /** `ascii_hash`: the fold from 0 over the bytes of `s`. */
  function AsciiHash(s: Bytes): (r: u32)
    ensures r < 256
  {
    HashFrom(0, s)
  }

  function Pow17(k: nat): (r: nat)
  {
    if k == 0 then 1 else 17 * Pow17(k - 1)
  }

  /** The HASH as a polynomial: byte `i` of `n` bytes is weighted by
      `17^(n - i)`. */
  function Poly(s: Bytes): nat
  {
    if |s| == 0 then 0 else s[0] * Pow17(|s|) + Poly(s[1..])
  }

  /** Reducing a factor modulo 256 first does not change a sum modulo
      256. */
  lemma ModFactor(x: nat, p: nat, c: nat)
    ensures ((x % 256) * p + c) % 256 == (x * p + c) % 256
  {
    var q := x / 256;
    var k := q * p;
    assert x * p + c == 256 * k + ((x % 256) * p + c) by {
      assert x == 256 * q + x % 256;
      assert x * p == (256 * q) * p + (x % 256) * p;
    }
  }

  lemma PolyStep(acc: nat, x: nat, p: nat, rest: nat)
    ensures (acc + x) * 17 * p + rest == acc * (17 * p) + (x * (17 * p) + rest)
  {
  }

  /** The fold from `acc` is the polynomial with `acc` as its leading
      coefficient, modulo 256. */
  lemma {:induction false} HashFromPoly(acc: u32, s: Bytes)
    requires acc < 256
    ensures HashFrom(acc, s) == (acc * Pow17(|s|) + Poly(s)) % 256
    decreases |s|
  {
    if |s| > 0 {
      var p := Pow17(|s| - 1);
      var next := (acc + s[0]) * 17;
      assert HashFrom(acc, s) == HashFrom(next % 256, s[1..]);
      HashFromPoly(next % 256, s[1..]);
      ModFactor(next, p, Poly(s[1..]));
      PolyStep(acc, s[0], p, Poly(s[1..]));
      assert Pow17(|s|) == 17 * p;
      assert Poly(s) == s[0] * (17 * p) + Poly(s[1..]);
    }
  }

  /** `ascii_hash(s)` is `sum of s[i] * 17^(n - i)` modulo 256. */
  lemma HashIsPoly(s: Bytes)
    ensures AsciiHash(s) == Poly(s) % 256
  {
    HashFromPoly(0, s);
  }

  // ---------------------------------------------------------------
  // Parsing a step

  /** The position of the first `-` or `=` in `c`, if any (`str::find`). */
  function Pivot(c: Bytes): (r: Option<nat>)
    ensures r.Some? ==> r.value < |c| && (c[r.value] == DASH || c[r.value] == EQUALS)
    ensures r.Some? ==> forall i :: 0 <= i < r.value ==> c[i] != DASH && c[i] != EQUALS
    ensures r.None? ==> forall i :: 0 <= i < |c| ==> c[i] != DASH && c[i] != EQUALS
  {
    if |c| == 0 then None
    else if c[0] == DASH || c[0] == EQUALS then Some(0)
    else match Pivot(c[1..])
      case None => None
      case Some(i) => Some(i + 1)
  }

  predicate IsDigit(b: byte)
  {
    ZERO <= b < ZERO + 10
  }

  /** The value of a string of decimal digits. */
  function DecimalValue(digits: Bytes): nat
    requires forall i :: 0 <= i < |digits| ==> IsDigit(digits[i])
  {
    if |digits| == 0 then 0
    else
      var last := digits[|digits| - 1];
      assert IsDigit(last);
      10 * DecimalValue(digits[..|digits| - 1]) + (last - ZERO)
  }

  /** `str::parse::<u8>`: an optional `+`, then at least one decimal digit,
      with a value that fits in a byte. */
  function ParseU8(s: Bytes): (r: Option<byte>)
  {
    var digits := if |s| > 0 && s[0] == PLUS then s[1..] else s;
    if |digits| == 0 || exists i :: 0 <= i < |digits| && !IsDigit(digits[i]) then None
    else if DecimalValue(digits) < 256 then Some(DecimalValue(digits))
    else None
  }

  /** The shortest decimal digits of `n`. */
  function Decimal(n: nat): (r: Bytes)
    ensures |r| > 0 && forall i :: 0 <= i < |r| ==> IsDigit(r[i])
  {
    if n < 10 then [ZERO + n] else Decimal(n / 10) + [ZERO + n % 10]
  }

  lemma {:induction false} DecimalValueOf(n: nat)
    ensures DecimalValue(Decimal(n)) == n
  {
    if n >= 10 {
      DecimalValueOf(n / 10);
      var d := Decimal(n);
      assert d[..|d| - 1] == Decimal(n / 10);
    }
  }

  /** A byte written in decimal, with or without a plus sign, parses back
      to itself. */
  lemma ParseDecimal(n: byte)
    ensures ParseU8(Decimal(n)) == Some(n)
    ensures ParseU8([PLUS] + Decimal(n)) == Some(n)
  {
    DecimalValueOf(n);
    assert ([PLUS] + Decimal(n))[1..] == Decimal(n);
  }

  /** What a step asks for: `Some(f)` files a lens with focal length `f`,
      `None` takes a lens out. */
  datatype Step = Step(name: Bytes, focal: Option<byte>)

  /** A step the closure of `part_02` gets through: it contains a `-` or
      `=`, and whatever follows the first of these, if anything, is a
      byte in decimal. */
  predicate WellFormedStep(c: Bytes)
  {
    && Pivot(c).Some?
    && (Pivot(c).value + 1 != |c| ==> ParseU8(c[Pivot(c).value + 1..]).Some?)
  }

  /** The label is everything before the first `-` or `=`. The step
      removes when that character is the last one, and otherwise files a
      lens with the number after it, whichever of the two characters it
      is: `ab=` removes `ab`, and `ab-3` files `ab` with focal length 3. */
  function ParseStep(c: Bytes): (r: Step)
    requires WellFormedStep(c)
    ensures r.name == c[..Pivot(c).value]
    ensures r.focal.None? <==> Pivot(c).value + 1 == |c|
    ensures r.focal.Some? ==> ParseU8(c[Pivot(c).value + 1..]) == r.focal
  {
    var pivot := Pivot(c).value;
    if pivot + 1 == |c| then Step(c[..pivot], None)
    else Step(c[..pivot], ParseU8(c[pivot + 1..]))
  }

  // ---------------------------------------------------------------
  // Boxes

  datatype Lens = Lens(name: Bytes, focal: byte)

  /** The `find_map` of `part_02`: the first slot holding the label
      `name`. */
  function FindLabel(b: seq<Lens>, name: Bytes): (r: Option<nat>)
    ensures r.Some? ==> r.value < |b| && b[r.value].name == name
    ensures r.Some? ==> forall j :: 0 <= j < r.value ==> b[j].name != name
    ensures r.None? ==> forall j :: 0 <= j < |b| ==> b[j].name != name
  {
    if |b| == 0 then None
    else if b[0].name == name then Some(0)
    else match FindLabel(b[1..], name)
      case None => None
      case Some(i) => Some(i + 1)
  }

  /** One step on the box its label hashes to: a removal drops the lens
      with that label if there is one; an addition replaces the lens with
      that label in its slot, or puts a new lens behind the others. */
  function Update(b: seq<Lens>, step: Step): (r: seq<Lens>)
  {
    match (FindLabel(b, step.name), step.focal)
    case (None, None) => b
    case (Some(i), None) => b[..i] + b[i + 1..]
    case (None, Some(f)) => b + [Lens(step.name, f)]
    case (Some(i), Some(f)) => b[i := Lens(step.name, f)]
  }

  predicate DistinctLabels(b: seq<Lens>)
  {
    forall i, j :: 0 <= i < j < |b| ==> b[i].name != b[j].name
  }

  /** The focal length filed under each label of a box. */
  function Contents(b: seq<Lens>): map<Bytes, byte>
  {
    if |b| == 0 then map[]
    else Contents(b[..|b| - 1])[b[|b| - 1].name := b[|b| - 1].focal]
  }

  /** The labels in a box's contents are the labels of its slots. */
  lemma {:induction false} ContentsKeys(b: seq<Lens>)
    ensures forall l :: l in Contents(b) <==> exists j :: 0 <= j < |b| && b[j].name == l
  {
    if |b| > 0 {
      var n := |b| - 1;
      var front := b[..n];
      ContentsKeys(front);
      assert Contents(b) == Contents(front)[b[n].name := b[n].focal];
      forall l | l in Contents(b)
        ensures exists j :: 0 <= j < |b| && b[j].name == l
      {
        if l != b[n].name {
          var j :| 0 <= j < n && front[j].name == l;
          assert b[j].name == l;
        }
      }
      forall l | exists j :: 0 <= j < |b| && b[j].name == l
        ensures l in Contents(b)
      {
        var j :| 0 <= j < |b| && b[j].name == l;
        if j < n {
          assert front[j].name == l;
        }
      }
    }
  }

  /** In a box with distinct labels, each lens's label maps to its focal
      length. */
  lemma {:induction false} ContentsAt(b: seq<Lens>, j: nat)
    requires DistinctLabels(b) && j < |b|
    ensures b[j].name in Contents(b) && Contents(b)[b[j].name] == b[j].focal
  {
    var n := |b| - 1;
    if j < n {
      var front := b[..n];
      assert front[j] == b[j];
      ContentsAt(front, j);
      assert b[n].name != b[j].name;
    }
  }

  /** A step keeps the labels of a box distinct (`part_02` never files a
      label twice in one box). */
  lemma UpdateDistinct(b: seq<Lens>, step: Step)
    requires DistinctLabels(b)
    ensures DistinctLabels(Update(b, step))
  {
    var r := Update(b, step);
    match FindLabel(b, step.name)
    case None =>
    case Some(i) =>
      if step.focal.None? {
        forall x, y | 0 <= x < y < |r|
          ensures r[x].name != r[y].name
        {
          var x' := if x < i then x else x + 1;
          var y' := if y < i then y else y + 1;
          assert r[x] == b[x'] && r[y] == b[y'];
        }
      }
  }

  lemma AppendContents(b: seq<Lens>, x: Lens)
    ensures Contents(b + [x]) == Contents(b)[x.name := x.focal]
  {
    assert (b + [x])[..|b|] == b;
  }

  lemma RemoveDistinct(b: seq<Lens>, i: nat)
    requires DistinctLabels(b) && i < |b|
    ensures DistinctLabels(b[..i] + b[i + 1..])
  {
    var r := b[..i] + b[i + 1..];
    forall x, y | 0 <= x < y < |r|
      ensures r[x].name != r[y].name
    {
      assert r[x] == b[if x < i then x else x + 1];
      assert r[y] == b[if y < i then y else y + 1];
    }
  }

  /** The contents of two boxes' slots one after the other: the second
      box's labels win. */
  lemma {:induction false} ContentsConcat(x: seq<Lens>, y: seq<Lens>)
    ensures Contents(x + y) == Contents(x) + Contents(y)
  {
    if |y| == 0 {
      assert x + y == x;
    } else {
      var n := |y| - 1;
      assert (x + y)[..|x + y| - 1] == x + y[..n];
      ContentsConcat(x, y[..n]);
    }
  }

  /** In a box with distinct labels, the label in slot `i` is in no
      other slot. */
  lemma Unshared(b: seq<Lens>, i: nat)
    requires DistinctLabels(b) && i < |b|
    ensures b[i].name !in Contents(b[..i]) && b[i].name !in Contents(b[i + 1..])
  {
    var pre, post := b[..i], b[i + 1..];
    ContentsKeys(pre);
    ContentsKeys(post);
    forall j | 0 <= j < |pre|
      ensures pre[j].name != b[i].name
    {
      assert pre[j] == b[j];
    }
    forall j | 0 <= j < |post|
      ensures post[j].name != b[i].name
    {
      assert post[j] == b[i + 1 + j];
    }
  }

  /** The contents of a box split at slot `i`. */
  lemma Around(b: seq<Lens>, i: nat)
    requires i < |b|
    ensures Contents(b) == (Contents(b[..i]) + map[b[i].name := b[i].focal]) + Contents(b[i + 1..])
  {
    var pre, post := b[..i], b[i + 1..];
    assert b == (pre + [b[i]]) + post;
    ContentsConcat(pre + [b[i]], post);
    ContentsConcat(pre, [b[i]]);
    assert [b[i]][..0] == [];
  }

  lemma MapRemoveMiddle<K, V>(pre: map<K, V>, post: map<K, V>, k: K, v: V)
    requires k !in pre && k !in post
    ensures ((pre + map[k := v]) + post) - {k} == pre + post
  {
  }

  lemma MapReplaceMiddle<K, V>(pre: map<K, V>, post: map<K, V>, k: K, v: V, w: V)
    requires k !in post
    ensures (pre + map[k := w]) + post == ((pre + map[k := v]) + post)[k := w]
  {
  }

  lemma {:induction false} RemoveContents(b: seq<Lens>, i: nat)
    requires DistinctLabels(b) && i < |b|
    ensures DistinctLabels(b[..i] + b[i + 1..])
    ensures Contents(b[..i] + b[i + 1..]) == Contents(b) - {b[i].name}
  {
    RemoveDistinct(b, i);
    Unshared(b, i);
    Around(b, i);
    ContentsConcat(b[..i], b[i + 1..]);
    MapRemoveMiddle(Contents(b[..i]), Contents(b[i + 1..]), b[i].name, b[i].focal);
  }

  lemma {:induction false} ReplaceContents(b: seq<Lens>, i: nat, f: byte)
    requires DistinctLabels(b) && i < |b|
    ensures DistinctLabels(b[i := Lens(b[i].name, f)])
    ensures Contents(b[i := Lens(b[i].name, f)]) == Contents(b)[b[i].name := f]
  {
    var r := b[i := Lens(b[i].name, f)];
    assert forall j :: 0 <= j < |b| ==> r[j].name == b[j].name;
    assert r[..i] == b[..i] && r[i + 1..] == b[i + 1..];
    Unshared(b, i);
    Around(b, i);
    Around(r, i);
    MapReplaceMiddle(Contents(b[..i]), Contents(b[i + 1..]), b[i].name, b[i].focal, f);
  }

  /** A box behaves as a map from label to focal length: a removal
      deletes the label, an addition maps it to the new focal length. */
  lemma UpdateContents(b: seq<Lens>, step: Step)
    requires DistinctLabels(b)
    ensures step.focal.None? ==> Contents(Update(b, step)) == Contents(b) - {step.name}
    ensures step.focal.Some? ==> Contents(Update(b, step)) == Contents(b)[step.name := step.focal.value]
  {
    match (FindLabel(b, step.name), step.focal)
    case (None, None) =>
      ContentsKeys(b);
    case (Some(i), None) =>
      RemoveContents(b, i);
    case (None, Some(f)) =>
      AppendContents(b, Lens(step.name, f));
    case (Some(i), Some(f)) =>
      ReplaceContents(b, i, f);
  }

  /** The labels of a box, slot by slot. */
  function Labels(b: seq<Lens>): (r: seq<Bytes>)
    ensures |r| == |b| && forall j :: 0 <= j < |b| ==> r[j] == b[j].name
  {
    if |b| == 0 then [] else Labels(b[..|b| - 1]) + [b[|b| - 1].name]
  }

  /** An addition keeps the order of the slots: a label already in the box
      keeps its slot, a new one goes behind all others. */
  lemma UpdateOrder(b: seq<Lens>, name: Bytes, f: byte)
    ensures name in Labels(b) ==> Labels(Update(b, Step(name, Some(f)))) == Labels(b)
    ensures name !in Labels(b) ==> Labels(Update(b, Step(name, Some(f)))) == Labels(b) + [name]
  {
    var r := Update(b, Step(name, Some(f)));
    if name in Labels(b) {
      var j :| 0 <= j < |b| && Labels(b)[j] == name;
      assert b[j].name == name;
    }
  }

  // ---------------------------------------------------------------
  // Focusing power

  /** The focusing power of box `i`: slot `j` contributes
      `(i + 1) * (j + 1) * focal`. */
  function BoxPower(i: nat, b: seq<Lens>): nat
  {
    if |b| == 0 then 0 else BoxPower(i, b[..|b| - 1]) + (i + 1) * |b| * b[|b| - 1].focal
  }

  /** The total of `part_02`: the focusing power of every box, box `i` at
      index `i`. */
  function Power(boxes: seq<seq<Lens>>): nat
  {
    if |boxes| == 0 then 0 else Power(boxes[..|boxes| - 1]) + BoxPower(|boxes| - 1, boxes[|boxes| - 1])
  }

  /** Changing one box changes the total by that box's change in power
      and nothing else. */
  lemma {:induction false} PowerUpdate(boxes: seq<seq<Lens>>, h: nat, b: seq<Lens>)
    requires h < |boxes|
    ensures Power(boxes[h := b]) + BoxPower(h, boxes[h]) == Power(boxes) + BoxPower(h, b)
  {
    var n := |boxes| - 1;
    if h < n {
      assert boxes[h := b][..n] == boxes[..n][h := b];
      PowerUpdate(boxes[..n], h, b);
    } else {
      assert boxes[h := b][..n] == boxes[..n];
    }
  }

  /** Empty boxes have no power. */
  lemma {:induction false} PowerEmpty(n: nat)
    ensures Power(seq(n, _ => [])) == 0
  {
    if n > 0 {
      var empty: seq<seq<Lens>> := seq(n, _ => []);
      assert empty[..n - 1] == seq(n - 1, _ => []);
      PowerEmpty(n - 1);
    }
  }

  // ---------------------------------------------------------------
  // The HASHMAP procedure

  /** The boxes after a step: only the box of the label's HASH changes. */
  function Apply(boxes: seq<seq<Lens>>, step: Step): (r: seq<seq<Lens>>)
    requires |boxes| == BOX_COUNT
    ensures |r| == BOX_COUNT
  {
    var h := AsciiHash(step.name);
    boxes[h := Update(boxes[h], step)]
  }

  /** The boxes after the steps in order, from 256 empty boxes. */
  function Arranged(steps: seq<Step>): (r: seq<seq<Lens>>)
    ensures |r| == BOX_COUNT
  {
    if |steps| == 0 then seq(BOX_COUNT, _ => [])
    else Apply(Arranged(steps[..|steps| - 1]), steps[|steps| - 1])
  }

  predicate AllDistinct(boxes: seq<seq<Lens>>)
  {
    forall i :: 0 <= i < |boxes| ==> DistinctLabels(boxes[i])
  }

  /** No label is ever in two slots of a box. */
  lemma {:induction false} ArrangedDistinct(steps: seq<Step>)
    ensures AllDistinct(Arranged(steps))
  {
    if |steps| > 0 {
      var before := Arranged(steps[..|steps| - 1]);
      var step := steps[|steps| - 1];
      ArrangedDistinct(steps[..|steps| - 1]);
      UpdateDistinct(before[AsciiHash(step.name)], step);
    }
  }

  /** Each label is filed in the box of its HASH: a label in a box hashes
      to that box. */
  lemma {:induction false} ArrangedHashes(steps: seq<Step>)
    ensures forall i, j :: 0 <= i < BOX_COUNT && 0 <= j < |Arranged(steps)[i]| ==>
      AsciiHash(Arranged(steps)[i][j].name) == i
  {
    if |steps| > 0 {
      var before := Arranged(steps[..|steps| - 1]);
      var step := steps[|steps| - 1];
      ArrangedHashes(steps[..|steps| - 1]);
      var h := AsciiHash(step.name);
      var b := before[h];
      forall j | 0 <= j < |Update(b, step)|
        ensures AsciiHash(Update(b, step)[j].name) == h
      {
        match FindLabel(b, step.name)
        case None =>
        case Some(i) =>
          if step.focal.None? {
            assert Update(b, step)[j] == b[if j < i then j else j + 1];
          }
      }
    }
  }

  /** One step of the `for_each` closure of `part_02` on the 256 boxes. */
  method ApplyStep(boxes: array<seq<Lens>>, c: Bytes)
    requires boxes.Length == BOX_COUNT && WellFormedStep(c)
    modifies boxes
    ensures boxes[..] == Apply(old(boxes[..]), ParseStep(c))
  {
    var pivot := Pivot(c).value;
    var name := c[..pivot];
    var boxIndex := AsciiHash(name);
    var found := FindLabel(boxes[boxIndex], name);
    if pivot + 1 == |c| {
      if found.Some? {
        var i := found.value;
        boxes[boxIndex] := boxes[boxIndex][..i] + boxes[boxIndex][i + 1..];
      }
    } else {
      var lens := ParseU8(c[pivot + 1..]).value;
      match found
      case None => boxes[boxIndex] := boxes[boxIndex] + [Lens(name, lens)];
      case Some(i) => boxes[boxIndex] := boxes[boxIndex][i := Lens(name, lens)];
    }
  }

  /** The steps a list of pieces of the input parses to. */
  function ParseSteps(pieces: seq<Bytes>): (r: seq<Step>)
    requires forall k :: 0 <= k < |pieces| ==> WellFormedStep(pieces[k])
    ensures |r| == |pieces| && forall k :: 0 <= k < |pieces| ==> r[k] == ParseStep(pieces[k])
  {
    if |pieces| == 0 then [] else ParseSteps(pieces[..|pieces| - 1]) + [ParseStep(pieces[|pieces| - 1])]
  }

  /** `part_02` after the input is split at commas: file every step in
      order into 256 empty boxes, then add up the focusing power. */
  method Part2(pieces: seq<Bytes>) returns (total: nat)
    requires forall k :: 0 <= k < |pieces| ==> WellFormedStep(pieces[k])
    ensures total == Power(Arranged(ParseSteps(pieces)))
  {
    ghost var steps := ParseSteps(pieces);
    var boxes := new seq<Lens>[BOX_COUNT](_ => []);
    var k := 0;
    while k < |pieces|
      invariant 0 <= k <= |pieces|
      invariant boxes[..] == Arranged(steps[..k])
    {
      assert steps[..k + 1][..k] == steps[..k];
      assert Arranged(steps[..k + 1]) == Apply(Arranged(steps[..k]), ParseStep(pieces[k]));
      ApplyStep(boxes, pieces[k]);
      k := k + 1;
    }
    assert steps[..k] == steps;
    total := Power(boxes[..]);
  }
}
