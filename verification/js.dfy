/** The few pieces of the JavaScript runtime the avatar generator leans on:
    values that may be `undefined`, the UTF-16 view of a string that `length` and `charCodeAt` read, and
    `String.prototype.includes`. */
module Js {

  /** A value that may be `undefined` (or `null`). */
  datatype Option<+T> = None | Some(value: T) {

    /** The value, or `default` when it is `undefined`. */
    function GetOr(default: T): T {
      match this
      case Some(v) => v
      case None => default
    }
  }

  /** A UTF-16 code unit: the element type of a JavaScript string. */
  type CodeUnit = u: int | 0 <= u < 0x1_0000

  /** The UTF-16 code units of one Unicode scalar value. */
  function Utf16Char(c: char): (r: seq<CodeUnit>)
    ensures c as int < 0x1_0000 ==> r == [c as int]
    ensures c as int >= 0x1_0000 ==>
      && |r| == 2
      && 0xD800 <= r[0] < 0xDC00
      && 0xDC00 <= r[1] < 0xE000
      && 0x1_0000 + (r[0] as int - 0xD800) * 0x400 + (r[1] as int - 0xDC00) == c as int
  {
    if c as int < 0x1_0000 then [c as int]
    else
      var v := c as int - 0x1_0000;
      [0xD800 + v / 0x400, 0xDC00 + v % 0x400]
  }

  /** The UTF-16 encoding of a string, as JavaScript stores it. */
  function Utf16(s: string): seq<CodeUnit>
  {
    if s == [] then [] else Utf16Char(s[0]) + Utf16(s[1..])
  }

  /** A string all of whose characters lie in the Basic Multilingual Plane. */
  predicate IsBmp(s: string) {
    forall i | 0 <= i < |s| :: s[i] as int < 0x1_0000
  }

  /** A string of Basic Multilingual Plane characters has one code unit per
      character, equal to the character's code point; any other string has
      more code units than characters. */
  lemma {:induction false} Utf16Length(s: string)
    ensures IsBmp(s) ==> |Utf16(s)| == |s| && forall i | 0 <= i < |s| :: Utf16(s)[i] == s[i] as int
    ensures !IsBmp(s) ==> |Utf16(s)| > |s|
  {
    if s != [] {
      Utf16Length(s[1..]);
      assert IsBmp(s) <==> s[0] as int < 0x1_0000 && IsBmp(s[1..]) by {
        if IsBmp(s) {
          forall i | 0 <= i < |s[1..]| ensures s[1..][i] as int < 0x1_0000 {
            assert s[1..][i] == s[i + 1];
          }
        }
        if s[0] as int < 0x1_0000 && IsBmp(s[1..]) {
          forall i | 0 <= i < |s| ensures s[i] as int < 0x1_0000 {
            if i > 0 { assert s[i] == s[1..][i - 1]; }
          }
        }
      }
    }
  }

  /** `p` occurs in `s` starting at index `i`. */
  ghost predicate OccursAt(s: string, p: string, i: int) {
    0 <= i && i + |p| <= |s| && s[i..i + |p|] == p
  }

  /** `s.includes(p)`: a case-sensitive substring search; the empty string
      occurs in every string. */
  function Includes(s: string, p: string): (r: bool)
    ensures r <==> exists i :: OccursAt(s, p, i)
    decreases |s|
  {
    if |p| > |s| then
      assert forall i :: !OccursAt(s, p, i);
      false
    else if s[..|p|] == p then
      assert OccursAt(s, p, 0);
      true
    else
      var r := Includes(s[1..], p);
      assert r ==> exists i :: OccursAt(s, p, i) by {
        if r {
          var i :| OccursAt(s[1..], p, i);
          assert s[1..][i..i + |p|] == s[i + 1..i + 1 + |p|];
          assert OccursAt(s, p, i + 1);
        }
      }
      assert (exists i :: OccursAt(s, p, i)) ==> r by {
        if exists i :: OccursAt(s, p, i) {
          var i :| OccursAt(s, p, i);
          assert i != 0;
          assert s[1..][i - 1..i - 1 + |p|] == s[i..i + |p|];
          assert OccursAt(s[1..], p, i - 1);
        }
      }
      r
  }
}
