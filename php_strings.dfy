/** The few PHP string built-ins the API controller relies on, written out:
    truthiness of a string, ASCII `strtoupper`/`strtolower`, `str_replace`
    of one character and `explode`/`implode` on a comma. */
module PhpStrings {
  import opened Wrappers

  /** PHP's `(bool)` on a string: only "" and "0" are falsy. */
  predicate Truthy(s: string) {
    s != "" && s != "0"
  }

  /** PHP's `(bool)` on a request field that may be missing (`null`). */
  predicate TruthyField(v: Option<string>) {
    v.Some? && Truthy(v.value)
  }

  predicate IsLowerAscii(c: char) { 'a' <= c <= 'z' }
  predicate IsUpperAscii(c: char) { 'A' <= c <= 'Z' }

  function UpperChar(c: char): (u: char)
    ensures !IsLowerAscii(u)
    ensures IsLowerAscii(c) ==> IsUpperAscii(u) && u as int == c as int - 32
    ensures !IsLowerAscii(c) ==> u == c
  {
    if IsLowerAscii(c) then (c as int - 32) as char else c
  }

  function LowerChar(c: char): (l: char)
    ensures !IsUpperAscii(l)
    ensures IsUpperAscii(c) ==> IsLowerAscii(l) && l as int == c as int + 32
    ensures !IsUpperAscii(c) ==> l == c
  {
    if IsUpperAscii(c) then (c as int + 32) as char else c
  }

  /** `strtoupper`: ASCII letters only, every other character is kept. */
  function Upper(s: string): (r: string)
    ensures |r| == |s|
    ensures forall k :: 0 <= k < |r| ==> r[k] == UpperChar(s[k]) && !IsLowerAscii(r[k])
  {
    seq(|s|, k requires 0 <= k < |s| => UpperChar(s[k]))
  }

  /** `strtolower`: ASCII letters only, every other character is kept. */
  function Lower(s: string): (r: string)
    ensures |r| == |s|
    ensures forall k :: 0 <= k < |r| ==> r[k] == LowerChar(s[k]) && !IsUpperAscii(r[k])
  {
    seq(|s|, k requires 0 <= k < |s| => LowerChar(s[k]))
  }

  /** `str_replace('.', '/', s)`. */
  function DotsToSlashes(s: string): (r: string)
    ensures |r| == |s| && '.' !in r
    ensures forall k :: 0 <= k < |s| ==> r[k] == (if s[k] == '.' then '/' else s[k])
  {
    seq(|s|, k requires 0 <= k < |s| => if s[k] == '.' then '/' else s[k])
  }

  /** `explode(',', s)`: the pieces between commas, in order. As in PHP,
      the empty string gives one empty piece and a trailing comma gives a
      trailing empty piece. */
  function Explode(s: string): (parts: seq<string>)
    ensures |parts| >= 1
    ensures forall k :: 0 <= k < |parts| ==> ',' !in parts[k]
  {
    if s == [] then [""]
    else
      var rest := Explode(s[1..]);
      if s[0] == ',' then [""] + rest
      else [[s[0]] + rest[0]] + rest[1..]
  }

  /** `implode(',', parts)`: the pieces joined by commas. */
  function Implode(parts: seq<string>): string
    requires |parts| >= 1
  {
    if |parts| == 1 then parts[0] else parts[0] + "," + Implode(parts[1..])
  }

  /** Joining the pieces `explode` returns gives back the original string. */
  lemma {:induction false} ImplodeExplode(s: string)
    ensures Implode(Explode(s)) == s
  {
    if s != [] {
      var rest := Explode(s[1..]);
      ImplodeExplode(s[1..]);
      if s[0] == ',' {
        assert Explode(s) == [""] + rest;
        assert Implode(Explode(s)) == "" + "," + Implode(rest);
        assert s == [','] + s[1..];
      } else if |rest| == 1 {
        assert Explode(s) == [[s[0]] + rest[0]];
        assert s == [s[0]] + s[1..];
      } else {
        var parts := [[s[0]] + rest[0]] + rest[1..];
        assert Explode(s) == parts;
        assert parts[1..] == rest[1..];
        assert Implode(parts) == [s[0]] + rest[0] + "," + Implode(rest[1..]);
        assert Implode(rest) == rest[0] + "," + Implode(rest[1..]);
        assert s == [s[0]] + s[1..];
      }
    }
  }

  /** Exploding a string whose leading run has no comma: that run is glued
      onto the first piece of the rest. */
  lemma {:induction false} ExplodeCommaFreePrefix(a: string, tail: string)
    requires ',' !in a
    ensures Explode(a + tail) == [a + Explode(tail)[0]] + Explode(tail)[1..]
  {
    if a != [] {
      ExplodeCommaFreePrefix(a[1..], tail);
      assert (a + tail)[1..] == a[1..] + tail;
      assert (a + tail)[0] == a[0];
      assert [a[0]] + (a[1..] + Explode(tail)[0]) == a + Explode(tail)[0];
    } else {
      assert a + tail == tail;
      var e := Explode(tail);
      assert a + e[0] == e[0];
      assert e == [e[0]] + e[1..];
    }
  }

  /** Comma-free pieces survive a round trip through `implode` and `explode`. */
  lemma {:induction false} ExplodeImplode(parts: seq<string>)
    requires |parts| >= 1
    requires forall k :: 0 <= k < |parts| ==> ',' !in parts[k]
    ensures Explode(Implode(parts)) == parts
  {
    if |parts| == 1 {
      ExplodeCommaFreePrefix(parts[0], "");
      assert parts[0] + "" == parts[0];
    } else {
      var rest := Implode(parts[1..]);
      ExplodeImplode(parts[1..]);
      ExplodeCommaFreePrefix(parts[0], "," + rest);
      assert ("," + rest)[1..] == rest;
      assert Explode("," + rest) == [""] + parts[1..];
      assert parts[0] + "," + rest == parts[0] + ("," + rest);
      assert parts[0] + "" == parts[0];
      assert [parts[0]] + parts[1..] == parts;
    }
  }
}
