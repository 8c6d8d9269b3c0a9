/** The Go string helpers the model needs, with the facts that are used about them. */
module Text {

  /** unicode.IsSpace. */
  predicate IsSpace(c: char) {
    || c in {' ', '\t', '\n', '\U{0B}', '\U{0C}', '\r', '\U{85}', '\U{A0}', '\U{1680}'}
    || '\U{2000}' <= c <= '\U{200A}'
    || c in {'\U{2028}', '\U{2029}', '\U{202F}', '\U{205F}', '\U{3000}'}
  }

  /** The code points with the property White_Space in the Unicode standard. */
  lemma Spaces(c: char)
    ensures IsSpace(c) <==>
              || c as int in {0x9, 0xA, 0xB, 0xC, 0xD, 0x20, 0x85, 0xA0, 0x1680, 0x2028, 0x2029, 0x202F, 0x205F, 0x3000}
              || 0x2000 <= c as int <= 0x200A
  {
  }

  /** Lower-cases ASCII letters. */
  function LowerChar(c: char): char {
    if 'A' <= c <= 'Z' then c - 'A' + 'a' else c
  }

  function Lower(s: string): (r: string)
    ensures |r| == |s|
    ensures forall i :: 0 <= i < |s| ==> r[i] == LowerChar(s[i])
  {
    if s == [] then [] else [LowerChar(s[0])] + Lower(s[1..])
  }

  /** Only the letters A to Z change, each to its small one. */
  lemma SmallLetters(c: char)
    ensures LowerChar(c) as int == if 65 <= c as int <= 90 then c as int + 32 else c as int
  {
  }

  function TrimLeft(s: string): (r: string)
    ensures r == [] || !IsSpace(r[0])
    ensures |r| <= |s| && r == s[|s| - |r|..]
  {
    if s != [] && IsSpace(s[0]) then TrimLeft(s[1..]) else s
  }

  function TrimRight(s: string): (r: string)
    ensures r == [] || !IsSpace(r[|r| - 1])
    ensures |r| <= |s| && r == s[..|r|]
  {
    if s != [] && IsSpace(s[|s| - 1]) then TrimRight(s[..|s| - 1]) else s
  }

  /** strings.TrimSpace. */
  function Trim(s: string): (r: string)
    ensures Trimmed(r)
    ensures Trimmed(s) ==> r == s
    ensures |r| <= |s| && forall c :: c in r ==> c in s
  {
    TrimRight(TrimLeft(s))
  }

  predicate Trimmed(s: string) {
    s == [] || (!IsSpace(s[0]) && !IsSpace(s[|s| - 1]))
  }

  /** strings.Split on a one-character separator. */
  function Split(s: string, sep: char): (parts: seq<string>)
    ensures parts != []
    ensures forall p :: p in parts ==> sep !in p
  {
    if s == [] then [[]]
    else
      var rest := Split(s[1..], sep);
      if s[0] == sep then [[]] + rest else [[s[0]] + rest[0]] + rest[1..]
  }

  function Join(parts: seq<string>, sep: char): string
    requires parts != []
  {
    if |parts| == 1 then parts[0] else parts[0] + [sep] + Join(parts[1..], sep)
  }

  lemma {:induction false} JoinOfSplit(s: string, sep: char)
    ensures Join(Split(s, sep), sep) == s
  {
    if s != [] {
      JoinOfSplit(s[1..], sep);
      var rest := Split(s[1..], sep);
      if s[0] == sep {
        assert ([[]] + rest)[1..] == rest;
      } else if |rest| > 1 {
        assert ([[s[0]] + rest[0]] + rest[1..])[1..] == rest[1..];
      }
    }
  }

  lemma {:induction false} SplitOfJoin(parts: seq<string>, sep: char)
    requires parts != [] && forall p :: p in parts ==> sep !in p
    ensures Split(Join(parts, sep), sep) == parts
    decreases |parts|, |parts[0]|
  {
    var first := parts[0];
    var whole := Join(parts, sep);
    if first == [] {
      if |parts| > 1 {
        SplitOfJoin(parts[1..], sep);
        assert whole[1..] == Join(parts[1..], sep);
      }
    } else {
      var shorter := [first[1..]] + parts[1..];
      assert forall p :: p in shorter ==> sep !in p by {
        assert first in parts;
      }
      SplitOfJoin(shorter, sep);
      assert shorter[1..] == parts[1..];
      assert whole[1..] == Join(shorter, sep);
      assert first in parts && whole[0] == first[0] && first[0] != sep;
      assert [first[0]] + first[1..] == first;
      assert Split(whole, sep) == [[whole[0]] + shorter[0]] + shorter[1..];
    }
  }
}
