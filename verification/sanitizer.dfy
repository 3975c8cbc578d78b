/** index.js `zwaveLabel`: turns a value into a token that is safe inside a
    Prometheus metric name. The steps, in order: `toString()`, lower-case,
    every space to `_`, every subscript two to the digit `2`, then every
    character outside `[a-zA-Z0-9_]` removed.

    Lower-casing is modelled on ASCII letters only.
 */
module Sanitizer {
  import opened Results
  import opened JsValues

  /** U+2082, the subscript two of "CO₂". */
  const Subscript2: char := '\U{2082}'

  predicate IsUpper(c: char)
  {
    'A' <= c <= 'Z'
  }

  /** The class `[a-zA-Z0-9_]` that the final replaceAll keeps. */
  predicate IsKept(c: char)
  {
    'a' <= c <= 'z' || IsUpper(c) || IsDigit(c) || c == '_'
  }

  /** The characters a sanitized token is made of: `[a-z0-9_]`. */
  predicate IsLabelChar(c: char)
  {
    'a' <= c <= 'z' || IsDigit(c) || c == '_'
  }

  predicate IsLabel(s: string)
  {
    forall i :: 0 <= i < |s| ==> IsLabelChar(s[i])
  }

  function LowerChar(c: char): (d: char)
    ensures !IsUpper(d)
    ensures !IsUpper(c) ==> d == c
  {
    if IsUpper(c) then (c as int + 32) as char else c
  }

  function ToLower(s: string): (r: string)
    ensures |r| == |s|
    ensures forall i :: 0 <= i < |s| ==> r[i] == LowerChar(s[i])
  {
    seq(|s|, i requires 0 <= i < |s| => LowerChar(s[i]))
  }

  function ReplaceChar(c: char, from: char, to: char): char
  {
    if c == from then to else c
  }

  function ReplaceAll(s: string, from: char, to: char): (r: string)
    ensures |r| == |s|
    ensures forall i :: 0 <= i < |s| ==> r[i] == ReplaceChar(s[i], from, to)
  {
    seq(|s|, i requires 0 <= i < |s| => ReplaceChar(s[i], from, to))
  }

  /** Removes every character outside `[a-zA-Z0-9_]`, keeping the order of
      the rest. */
  function StripDisallowed(s: string): (r: string)
    ensures |r| <= |s|
    ensures forall i :: 0 <= i < |r| ==> IsKept(r[i]) && r[i] in s
    ensures forall i :: 0 <= i < |s| && IsKept(s[i]) ==> s[i] in r
    ensures (forall i :: 0 <= i < |s| ==> IsKept(s[i])) ==> r == s
  {
    if s == [] then []
    else (if IsKept(s[0]) then [s[0]] else []) + StripDisallowed(s[1..])
  }

  /** The strip step keeps every allowed character as often as the input
      has it, and drops every other character entirely. */
  lemma {:induction false} StripCounts(s: string)
    ensures forall c :: multiset(StripDisallowed(s))[c] == if IsKept(c) then multiset(s)[c] else 0
    decreases |s|
  {
    if s != [] {
      StripCounts(s[1..]);
      assert s == [s[0]] + s[1..];
      assert multiset(s) == multiset([s[0]]) + multiset(s[1..]);
      var head := if IsKept(s[0]) then [s[0]] else [];
      assert multiset(StripDisallowed(s)) == multiset(head) + multiset(StripDisallowed(s[1..]));
    }
  }

  /** The character-by-character part of the pipeline, before stripping. */
  function MapChar(c: char): char
  {
    ReplaceChar(ReplaceChar(LowerChar(c), ' ', '_'), Subscript2, '2')
  }

  /** `zwaveLabel` after `toString()`. */
  function Sanitize(s: string): (r: string)
    ensures IsLabel(r)
    ensures |r| <= |s|
  {
    var t := ReplaceAll(ReplaceAll(ToLower(s), ' ', '_'), Subscript2, '2');
    assert forall j :: 0 <= j < |t| ==> !IsUpper(t[j]);
    StripDisallowed(t)
  }

  /** index.js `zwaveLabel`: fails exactly when `toString()` does. */
  function ZwaveLabel(v: JsValue): (r: Result<string>)
    ensures r.Ok? <==> IsDefined(v)
    ensures r.Err? ==> r.error == NullishToString
    ensures r.Ok? ==> IsLabel(r.value) && r.value == Sanitize(JsString(v))
  {
    match ToStringMethod(v)
    case Ok(s) => Ok(Sanitize(s))
    case Err(e) => Err(e)
  }

  lemma LabelConcat(a: string, b: string)
    requires IsLabel(a) && IsLabel(b)
    ensures IsLabel(a + b)
  {
    forall i | 0 <= i < |a + b| ensures IsLabelChar((a + b)[i]) {
      if i >= |a| {
        assert (a + b)[i] == b[i - |a|];
      }
    }
  }

  /** What one source character contributes to the token: its image under
      the character steps if that image is kept, nothing otherwise. */
  function CharImage(c: char): string
  {
    var d := MapChar(c);
    if IsKept(d) then [d] else []
  }

  /** Reference definition: the token is the concatenation of the
      characters' images. */
  function SanitizeByChar(s: string): string
  {
    if s == [] then [] else CharImage(s[0]) + SanitizeByChar(s[1..])
  }

  /** A token is a fixed point of the sanitizer. */
  lemma LabelIsFixedPoint(s: string)
    requires IsLabel(s)
    ensures Sanitize(s) == s
  {
    var t := ReplaceAll(ReplaceAll(ToLower(s), ' ', '_'), Subscript2, '2');
    assert t == s;
  }

  /** Sanitizing twice is sanitizing once. */
  lemma SanitizeIdempotent(s: string)
    ensures Sanitize(Sanitize(s)) == Sanitize(s)
  {
    LabelIsFixedPoint(Sanitize(s));
  }

  /** Applying `zwaveLabel` to its own result gives that result back. */
  lemma ZwaveLabelIdempotent(v: JsValue)
    requires IsDefined(v)
    ensures ZwaveLabel(v).Ok? && ZwaveLabel(Str(ZwaveLabel(v).value)) == ZwaveLabel(v)
  {
    var t := Sanitize(JsString(v));
    assert ZwaveLabel(v) == Ok(t);
    SanitizeIdempotent(JsString(v));
    assert ZwaveLabel(Str(t)) == Ok(Sanitize(t));
  }

  /** The pipeline works character by character: it agrees with the
      reference definition on every string. */
  lemma {:induction false} SanitizeMatchesCharImages(s: string)
    ensures Sanitize(s) == SanitizeByChar(s)
    decreases |s|
  {
    if s != [] {
      var t := ReplaceAll(ReplaceAll(ToLower(s), ' ', '_'), Subscript2, '2');
      var t' := ReplaceAll(ReplaceAll(ToLower(s[1..]), ' ', '_'), Subscript2, '2');
      assert t[0] == MapChar(s[0]);
      assert t[1..] == t';
      SanitizeMatchesCharImages(s[1..]);
      assert StripDisallowed(t) == CharImage(s[0]) + StripDisallowed(t');
    }
  }
}
