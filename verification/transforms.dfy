/**
 * `stringifyTransform`: builds a CSS `transform` value from a transform
 * object, part by part in a fixed order, skipping falsy fields.
 */
module Transforms {
  import opened Wrappers
  import Seqs

  /**
   * A transform object. A field is `None` when it is falsy (absent, `0`,
   * empty) and `Some(s)` when it is truthy, `s` being its string form; no
   * arithmetic is done on the values.
   */
  datatype TransformObject = TransformObject(
    translateX: Option<string>, translateY: Option<string>, translateZ: Option<string>,
    rotate: Option<string>, rotateX: Option<string>, rotateY: Option<string>, rotateZ: Option<string>,
    scale: Option<string>, scaleX: Option<string>, scaleY: Option<string>, scaleZ: Option<string>,
    skewX: Option<string>, skewY: Option<string>)

  const NoTransform := TransformObject(None, None, None, None, None, None, None, None, None, None, None, None, None)

  datatype Field =
    | TranslateX | TranslateY | TranslateZ
    | Rotate | RotateX | RotateY | RotateZ
    | Scale | ScaleX | ScaleY | ScaleZ
    | SkewX | SkewY

  /** The field's name, which is also the name of the CSS function it becomes. */
  function Name(f: Field): string
  {
    match f
    case TranslateX => "translateX" case TranslateY => "translateY" case TranslateZ => "translateZ"
    case Rotate => "rotate" case RotateX => "rotateX" case RotateY => "rotateY" case RotateZ => "rotateZ"
    case Scale => "scale" case ScaleX => "scaleX" case ScaleY => "scaleY" case ScaleZ => "scaleZ"
    case SkewX => "skewX" case SkewY => "skewY"
  }

  /** The unit appended to the value: pixels for translations, degrees for rotations and skews, none for scales. */
  function Unit(f: Field): string
  {
    match f
    case TranslateX | TranslateY | TranslateZ => "px"
    case Rotate | RotateX | RotateY | RotateZ | SkewX | SkewY => "deg"
    case Scale | ScaleX | ScaleY | ScaleZ => ""
  }

  function Value(t: TransformObject, f: Field): Option<string>
  {
    match f
    case TranslateX => t.translateX case TranslateY => t.translateY case TranslateZ => t.translateZ
    case Rotate => t.rotate case RotateX => t.rotateX case RotateY => t.rotateY case RotateZ => t.rotateZ
    case Scale => t.scale case ScaleX => t.scaleX case ScaleY => t.scaleY case ScaleZ => t.scaleZ
    case SkewX => t.skewX case SkewY => t.skewY
  }

  /** One emitted part, `name(value unit)`. */
  datatype Piece = Piece(field: Field, value: string)

  function Render(p: Piece): (r: string)
    ensures |r| >= 2
  {
    Name(p.field) + "(" + p.value + Unit(p.field) + ")"
  }

  /** `if (object.f) { str.push(...) }`. */
  function Part(t: TransformObject, f: Field): seq<Piece>
  {
    if Value(t, f).Some? then [Piece(f, Value(t, f).value)] else []
  }

  /** The parts pushed, in the order of the code. */
  function Emitted(t: TransformObject): seq<Piece>
  {
    Translations(t) + Rotations(t) + Scales(t) + Skews(t)
  }

  function Translations(t: TransformObject): seq<Piece>
  {
    Part(t, TranslateX) + Part(t, TranslateY) + Part(t, TranslateZ)
  }

  /** A truthy `rotate` is pushed alone; only otherwise are rotateX/Y/Z tried. */
  function Rotations(t: TransformObject): seq<Piece>
  {
    if t.rotate.Some? then Part(t, Rotate) else Part(t, RotateX) + Part(t, RotateY) + Part(t, RotateZ)
  }

  /** A truthy `scale` is pushed alone; only otherwise are scaleX/Y/Z tried. */
  function Scales(t: TransformObject): seq<Piece>
  {
    if t.scale.Some? then Part(t, Scale) else Part(t, ScaleX) + Part(t, ScaleY) + Part(t, ScaleZ)
  }

  function Skews(t: TransformObject): seq<Piece>
  {
    Part(t, SkewX) + Part(t, SkewY)
  }

  /** Each piece rendered, in order. */
  function RenderAll(ps: seq<Piece>): (r: seq<string>)
    ensures |r| == |ps|
  {
    seq(|ps|, k requires 0 <= k < |ps| => Render(ps[k]))
  }

  /** `parts.join(sep)`. */
  function Join(parts: seq<string>, sep: char): string
  {
    if parts == [] then "" else if |parts| == 1 then parts[0] else parts[0] + [sep] + Join(parts[1..], sep)
  }

  /** `stringifyTransform(object)`. */
  function StringifyTransform(t: TransformObject): string
  {
    Join(RenderAll(Emitted(t)), ' ')
  }

  // ---------------------------------------------------------------------------
  // Which parts appear, and in which order

  /** Every field, in the order the parts are emitted. */
  const AllFields: seq<Field> := TranslationFields + RotationFields + ScaleFields + SkewFields

  const TranslationFields: seq<Field> := [TranslateX] + ([TranslateY] + [TranslateZ])
  const RotationFields: seq<Field> := [Rotate] + ([RotateX] + ([RotateY] + [RotateZ]))
  const ScaleFields: seq<Field> := [Scale] + ([ScaleX] + ([ScaleY] + [ScaleZ]))
  const SkewFields: seq<Field> := [SkewX] + [SkewY]

  /** A truthy `rotate` hides the three rotations, a truthy `scale` the three scales. */
  predicate Hidden(t: TransformObject, f: Field)
  {
    match f
    case RotateX | RotateY | RotateZ => t.rotate.Some?
    case ScaleX | ScaleY | ScaleZ => t.scale.Some?
    case _ => false
  }

  /** The part of `f` appears exactly when its field is truthy and not hidden. */
  predicate Emits(t: TransformObject, f: Field)
  {
    Value(t, f).Some? && !Hidden(t, f)
  }

  /** The part for `f`, if it appears. */
  function Item(t: TransformObject, f: Field): seq<Piece>
  {
    if Emits(t, f) then [Piece(f, Value(t, f).value)] else []
  }

  /** The parts for the fields `fs` that appear, in the order of `fs`. */
  function Select(t: TransformObject, fs: seq<Field>): seq<Piece>
  {
    if fs == [] then [] else Item(t, fs[0]) + Select(t, fs[1..])
  }

  lemma {:induction false} SelectConcat(t: TransformObject, a: seq<Field>, b: seq<Field>)
    ensures Select(t, a + b) == Select(t, a) + Select(t, b)
    decreases a
  {
    if a == [] {
      assert a + b == b;
    } else {
      assert (a + b)[1..] == a[1..] + b;
      SelectConcat(t, a[1..], b);
    }
  }

  lemma SelectCons(t: TransformObject, f: Field, fs: seq<Field>)
    ensures Select(t, [f] + fs) == Item(t, f) + Select(t, fs)
  {
    assert ([f] + fs)[1..] == fs;
  }

  lemma SelectOne(t: TransformObject, f: Field)
    ensures Select(t, [f]) == Item(t, f)
  {
    assert [f][1..] == [];
  }

  lemma TranslationsSelected(t: TransformObject)
    ensures Select(t, TranslationFields) == Translations(t)
  {
    SelectCons(t, TranslateX, [TranslateY] + [TranslateZ]);
    SelectCons(t, TranslateY, [TranslateZ]);
    SelectOne(t, TranslateZ);
  }

  lemma RotationsSelected(t: TransformObject)
    ensures Select(t, RotationFields) == Rotations(t)
  {
    SelectCons(t, Rotate, [RotateX] + ([RotateY] + [RotateZ]));
    SelectCons(t, RotateX, [RotateY] + [RotateZ]);
    SelectCons(t, RotateY, [RotateZ]);
    SelectOne(t, RotateZ);
  }

  lemma ScalesSelected(t: TransformObject)
    ensures Select(t, ScaleFields) == Scales(t)
  {
    SelectCons(t, Scale, [ScaleX] + ([ScaleY] + [ScaleZ]));
    SelectCons(t, ScaleX, [ScaleY] + [ScaleZ]);
    SelectCons(t, ScaleY, [ScaleZ]);
    SelectOne(t, ScaleZ);
  }

  lemma SkewsSelected(t: TransformObject)
    ensures Select(t, SkewFields) == Skews(t)
  {
    SelectCons(t, SkewX, [SkewY]);
    SelectOne(t, SkewY);
  }

  /**
   * The parts are exactly those of the truthy fields that are not hidden, in
   * the fixed order translateX/Y/Z, rotate, rotateX/Y/Z, scale, scaleX/Y/Z,
   * skewX/Y.
   */
  lemma EmittedInFixedOrder(t: TransformObject)
    ensures Emitted(t) == Select(t, AllFields)
  {
    SelectConcat(t, TranslationFields + RotationFields + ScaleFields, SkewFields);
    SelectConcat(t, TranslationFields + RotationFields, ScaleFields);
    SelectConcat(t, TranslationFields, RotationFields);
    TranslationsSelected(t);
    RotationsSelected(t);
    ScalesSelected(t);
    SkewsSelected(t);
  }

  /** Fields hidden by `rotate` or `scale` do not show in the output. */
  lemma HiddenFieldsIgnored(t: TransformObject)
    ensures Emitted(Normalized(t)) == Emitted(t)
    ensures StringifyTransform(Normalized(t)) == StringifyTransform(t)
  {
    TranslationsNormalized(t);
    RotationsNormalized(t);
    ScalesNormalized(t);
    SkewsNormalized(t);
  }

  lemma TranslationsNormalized(t: TransformObject)
    ensures Translations(Normalized(t)) == Translations(t)
  {
    var n := Normalized(t);
    assert Part(n, TranslateX) == Part(t, TranslateX);
    assert Part(n, TranslateY) == Part(t, TranslateY);
    assert Part(n, TranslateZ) == Part(t, TranslateZ);
  }

  lemma RotationsNormalized(t: TransformObject)
    ensures Rotations(Normalized(t)) == Rotations(t)
  {
    var n := Normalized(t);
    if t.rotate.Some? {
      assert Part(n, Rotate) == Part(t, Rotate);
    } else {
      assert Part(n, RotateX) == Part(t, RotateX);
      assert Part(n, RotateY) == Part(t, RotateY);
      assert Part(n, RotateZ) == Part(t, RotateZ);
    }
  }

  lemma ScalesNormalized(t: TransformObject)
    ensures Scales(Normalized(t)) == Scales(t)
  {
    var n := Normalized(t);
    if t.scale.Some? {
      assert Part(n, Scale) == Part(t, Scale);
    } else {
      assert Part(n, ScaleX) == Part(t, ScaleX);
      assert Part(n, ScaleY) == Part(t, ScaleY);
      assert Part(n, ScaleZ) == Part(t, ScaleZ);
    }
  }

  lemma SkewsNormalized(t: TransformObject)
    ensures Skews(Normalized(t)) == Skews(t)
  {
    var n := Normalized(t);
    assert Part(n, SkewX) == Part(t, SkewX);
    assert Part(n, SkewY) == Part(t, SkewY);
  }

  /** `t` with the fields that `rotate` or `scale` hide cleared: what the output can say about `t`. */
  function Normalized(t: TransformObject): TransformObject
  {
    t.(rotateX := if t.rotate.Some? then None else t.rotateX,
       rotateY := if t.rotate.Some? then None else t.rotateY,
       rotateZ := if t.rotate.Some? then None else t.rotateZ,
       scaleX := if t.scale.Some? then None else t.scaleX,
       scaleY := if t.scale.Some? then None else t.scaleY,
       scaleZ := if t.scale.Some? then None else t.scaleZ)
  }

  /** A field of the normalized object keeps its value exactly when its part appears in the output. */
  lemma NormalizedKeepsEmitted(t: TransformObject, f: Field)
    ensures Value(Normalized(t), f) == if Emits(t, f) then Value(t, f) else None
  {
    match f
    case _ =>
  }

  // ---------------------------------------------------------------------------
  // Reading the output back

  /** `s.split(sep)`. */
  function Split(s: string, sep: char): (r: seq<string>)
    ensures |r| >= 1
    decreases |s|
  {
    match Seqs.IndexOf(s, sep)
    case None => [s]
    case Some(i) =>
      assert |s[i + 1..]| < |s|;
      [s[..i]] + Split(s[i + 1..], sep)
  }

  /** The field a CSS function name stands for. */
  function FieldNamed(name: string): (r: Option<Field>)
    ensures r.Some? ==> Name(r.value) == name
  {
    if name == "translateX" then Some(TranslateX) else if name == "translateY" then Some(TranslateY)
    else if name == "translateZ" then Some(TranslateZ) else if name == "rotate" then Some(Rotate)
    else if name == "rotateX" then Some(RotateX) else if name == "rotateY" then Some(RotateY)
    else if name == "rotateZ" then Some(RotateZ) else if name == "scale" then Some(Scale)
    else if name == "scaleX" then Some(ScaleX) else if name == "scaleY" then Some(ScaleY)
    else if name == "scaleZ" then Some(ScaleZ) else if name == "skewX" then Some(SkewX)
    else if name == "skewY" then Some(SkewY) else None
  }

  /** Reads one part `name(value unit)` back. */
  function ParsePiece(word: string): Option<Piece>
  {
    match Seqs.IndexOf(word, '(')
    case None => None
    case Some(i) =>
      match FieldNamed(word[..i])
      case None => None
      case Some(f) =>
        var rest := word[i + 1..];
        var suffix := Unit(f) + ")";
        if |suffix| <= |rest| && rest[|rest| - |suffix|..] == suffix then
          Some(Piece(f, rest[..|rest| - |suffix|]))
        else None
  }

  function ParseAll(words: seq<string>): (r: Option<seq<Piece>>)
    ensures r.Some? ==> |r.value| == |words|
  {
    if words == [] then Some([])
    else
      var head, tail := ParsePiece(words[0]), ParseAll(words[1..]);
      if head.Some? && tail.Some? then Some([head.value] + tail.value) else None
  }

  /** The field a part names takes the part's value. */
  function Assign(t: TransformObject, p: Piece): (r: TransformObject)
    ensures Value(r, p.field) == Some(p.value)
    ensures forall f | f != p.field :: Value(r, f) == Value(t, f)
  {
    match p.field
    case TranslateX => t.(translateX := Some(p.value)) case TranslateY => t.(translateY := Some(p.value))
    case TranslateZ => t.(translateZ := Some(p.value)) case Rotate => t.(rotate := Some(p.value))
    case RotateX => t.(rotateX := Some(p.value)) case RotateY => t.(rotateY := Some(p.value))
    case RotateZ => t.(rotateZ := Some(p.value)) case Scale => t.(scale := Some(p.value))
    case ScaleX => t.(scaleX := Some(p.value)) case ScaleY => t.(scaleY := Some(p.value))
    case ScaleZ => t.(scaleZ := Some(p.value)) case SkewX => t.(skewX := Some(p.value))
    case SkewY => t.(skewY := Some(p.value))
  }

  function Fold(t: TransformObject, ps: seq<Piece>): TransformObject
    decreases ps
  {
    if ps == [] then t else Fold(Assign(t, ps[0]), ps[1..])
  }

  /** Reads a transform value built by `StringifyTransform` back into a transform object. */
  function ParseTransform(s: string): Option<TransformObject>
  {
    if s == "" then Some(NoTransform)
    else
      match ParseAll(Split(s, ' '))
      case Some(ps) => Some(Fold(NoTransform, ps))
      case None => None
  }

  // ---------------------------------------------------------------------------
  // The round trip

  /** No value holds a space, which would split a part in two. */
  predicate NoSpaces(t: TransformObject)
  {
    forall f | Value(t, f).Some? :: ' ' !in Value(t, f).value
  }

  lemma IndexOfAt<T>(s: seq<T>, x: T, i: nat)
    requires i < |s| && s[i] == x && x !in s[..i]
    ensures Seqs.IndexOf(s, x) == Some(i)
  {
    assert s[i] in s;
  }

  lemma {:induction false} SplitJoin(parts: seq<string>, sep: char)
    requires parts != []
    requires forall k | 0 <= k < |parts| :: sep !in parts[k]
    ensures Split(Join(parts, sep), sep) == parts
    decreases |parts|
  {
    if |parts| == 1 {
      assert Seqs.IndexOf(parts[0], sep).None?;
    } else {
      var rest := Join(parts[1..], sep);
      var s := parts[0] + [sep] + rest;
      assert s[..|parts[0]|] == parts[0];
      IndexOfAt(s, sep, |parts[0]|);
      assert s[|parts[0]| + 1..] == rest;
      SplitJoin(parts[1..], sep);
      assert parts == [parts[0]] + parts[1..];
    }
  }

  lemma NameHasNoParenthesis(f: Field)
    ensures '(' !in Name(f) && ' ' !in Name(f)
  {
    match f
    case _ =>
  }

  lemma NamesDistinct(f: Field)
    ensures FieldNamed(Name(f)) == Some(f)
  {
    match f
    case _ =>
  }

  lemma ParseRender(p: Piece)
    ensures ParsePiece(Render(p)) == Some(p)
  {
    var f := p.field;
    var name, suffix := Name(f), Unit(f) + ")";
    var word := Render(p);
    assert word == name + "(" + (p.value + suffix);
    NameHasNoParenthesis(f);
    assert word[..|name|] == name;
    IndexOfAt(word, '(', |name|);
    NamesDistinct(f);
    var rest := word[|name| + 1..];
    assert rest == p.value + suffix;
    assert rest[|rest| - |suffix|..] == suffix;
    assert rest[..|rest| - |suffix|] == p.value;
  }

  lemma ParseAllRendered(ps: seq<Piece>)
    ensures ParseAll(RenderAll(ps)) == Some(ps)
  {
    var words := RenderAll(ps);
    forall k | 0 <= k < |ps| ensures ParsePiece(words[k]) == Some(ps[k]) {
      ParseRender(ps[k]);
    }
    ParseAllPointwise(words, ps);
  }

  /** Words that each parse to the piece at the same place parse to the whole list. */
  lemma {:induction false} ParseAllPointwise(words: seq<string>, ps: seq<Piece>)
    requires |words| == |ps|
    requires forall k | 0 <= k < |ps| :: ParsePiece(words[k]) == Some(ps[k])
    ensures ParseAll(words) == Some(ps)
    decreases ps
  {
    if ps != [] {
      ParseAllPointwise(words[1..], ps[1..]);
      assert [ps[0]] + ps[1..] == ps;
    }
  }



  lemma {:induction false} FoldConcat(t: TransformObject, a: seq<Piece>, b: seq<Piece>)
    ensures Fold(t, a + b) == Fold(Fold(t, a), b)
    decreases a
  {
    if a == [] {
      assert a + b == b;
    } else {
      assert (a + b)[1..] == a[1..] + b;
      FoldConcat(Assign(t, a[0]), a[1..], b);
    }
  }

  /** Folding the selected parts over `u` overwrites exactly the fields whose part appears. */
  lemma {:induction false} FoldSelect(u: TransformObject, t: TransformObject, fs: seq<Field>)
    ensures forall f :: Value(Fold(u, Select(t, fs)), f) == if f in fs && Emits(t, f) then Value(t, f) else Value(u, f)
    decreases fs
  {
    if fs != [] {
      var v := Fold(u, Item(t, fs[0]));
      FoldConcat(u, Item(t, fs[0]), Select(t, fs[1..]));
      FoldSelect(v, t, fs[1..]);
      assert fs == [fs[0]] + fs[1..];
    }
  }

  lemma SameValues(a: TransformObject, b: TransformObject)
    requires forall f :: Value(a, f) == Value(b, f)
    ensures a == b
  {
    assert Value(a, TranslateX) == Value(b, TranslateX) && Value(a, TranslateY) == Value(b, TranslateY);
    assert Value(a, TranslateZ) == Value(b, TranslateZ) && Value(a, Rotate) == Value(b, Rotate);
    assert Value(a, RotateX) == Value(b, RotateX) && Value(a, RotateY) == Value(b, RotateY);
    assert Value(a, RotateZ) == Value(b, RotateZ) && Value(a, Scale) == Value(b, Scale);
    assert Value(a, ScaleX) == Value(b, ScaleX) && Value(a, ScaleY) == Value(b, ScaleY);
    assert Value(a, ScaleZ) == Value(b, ScaleZ) && Value(a, SkewX) == Value(b, SkewX);
    assert Value(a, SkewY) == Value(b, SkewY);
  }

  lemma InAllFields(f: Field)
    ensures f in AllFields
  {
    match f
    case _ =>
  }

  /** Folding the parts of the output over the empty object rebuilds the normalized object. */
  lemma FoldEmitted(t: TransformObject)
    ensures Fold(NoTransform, Emitted(t)) == Normalized(t)
  {
    EmittedInFixedOrder(t);
    FoldSelect(NoTransform, t, AllFields);
    forall f ensures Value(Fold(NoTransform, Emitted(t)), f) == Value(Normalized(t), f) {
      InAllFields(f);
      NormalizedKeepsEmitted(t, f);
    }
    SameValues(Fold(NoTransform, Emitted(t)), Normalized(t));
  }

  lemma UnitHasNoSpace(f: Field)
    ensures ' ' !in Unit(f) + ")"
  {
    match f
    case _ =>
  }

  lemma RenderHasNoSpace(p: Piece)
    requires ' ' !in p.value
    ensures ' ' !in Render(p)
  {
    NameHasNoParenthesis(p.field);
    UnitHasNoSpace(p.field);
    assert Render(p) == Name(p.field) + "(" + p.value + (Unit(p.field) + ")");
  }

  /** No rendered part holds a space. */
  lemma WordsHaveNoSpaces(t: TransformObject)
    requires NoSpaces(t)
    ensures forall k | 0 <= k < |RenderAll(Emitted(t))| :: ' ' !in RenderAll(Emitted(t))[k]
  {
    var ps := Emitted(t);
    EmittedInFixedOrder(t);
    forall k | 0 <= k < |ps| ensures ' ' !in Render(ps[k]) {
      var p := ps[k];
      SelectedValue(t, AllFields, p);
      assert Value(t, p.field).Some?;
      RenderHasNoSpace(p);
    }
  }

  /**
   * Reading the output back gives the object again, less the fields that
   * `rotate` and `scale` hide: nothing is lost, duplicated or misplaced.
   */
  lemma StringifyRoundTrip(t: TransformObject)
    requires NoSpaces(t)
    ensures ParseTransform(StringifyTransform(t)) == Some(Normalized(t))
  {
    var ps := Emitted(t);
    FoldEmitted(t);
    if ps != [] {
      var words := RenderAll(ps);
      WordsHaveNoSpaces(t);
      SplitJoin(words, ' ');
      ParseAllRendered(ps);
      JoinStartsWith(words, ' ');
      assert StringifyTransform(t) != "";
    }
  }

  lemma {:induction false} SelectedValue(t: TransformObject, fs: seq<Field>, p: Piece)
    requires p in Select(t, fs)
    ensures Value(t, p.field) == Some(p.value)
    decreases fs
  {
    if p !in Item(t, fs[0]) {
      SelectedValue(t, fs[1..], p);
    }
  }

  lemma JoinStartsWith(parts: seq<string>, sep: char)
    requires parts != []
    ensures |Join(parts, sep)| >= |parts[0]|
  {
  }

  lemma {:induction false} SelectEmpty(t: TransformObject, fs: seq<Field>)
    ensures Select(t, fs) == [] <==> forall k | 0 <= k < |fs| :: !Emits(t, fs[k])
    decreases fs
  {
    if fs != [] {
      SelectEmpty(t, fs[1..]);
      assert forall k | 1 <= k < |fs| :: fs[k] == fs[1..][k - 1];
    }
  }

  /** The result is the empty string exactly when no part is emitted. */
  lemma EmptyWhenNothingEmitted(t: TransformObject)
    ensures StringifyTransform(t) == "" <==> forall f :: !Emits(t, f)
  {
    EmittedInFixedOrder(t);
    SelectEmpty(t, AllFields);
    var ps := Emitted(t);
    if ps != [] {
      JoinStartsWith(RenderAll(ps), ' ');
    }
    forall f | ps == [] ensures !Emits(t, f) {
      InAllFields(f);
    }
  }
}
