/** The two string operations the queries use: substring containment
    (Python's `in` and SQL `contains`) and lower-casing (`str.lower()`). */
module Text {

  /** `sub` occurs in `s` at some position; the empty string occurs everywhere. */
  predicate Contains(s: string, sub: string) {
    exists i :: 0 <= i <= |s| - |sub| && sub <= s[i..]
  }

  predicate IsAsciiUpper(c: char) {
    'A' <= c <= 'Z'
  }

  predicate IsAsciiLower(c: char) {
    'a' <= c <= 'z'
  }

  function LowerChar(c: char): char {
    if IsAsciiUpper(c) then (c as int - 'A' as int + 'a' as int) as char else c
  }

  /** Lower-casing, restricted to the ASCII letters; every other character,
      the Hebrew letters among them, has no case and is kept. */
  function Lower(s: string): (r: string)
    ensures |r| == |s|
    ensures forall i :: 0 <= i < |s| && !IsAsciiUpper(s[i]) ==> r[i] == s[i]
    ensures forall i :: 0 <= i < |s| && IsAsciiUpper(s[i]) ==> IsAsciiLower(r[i])
  {
    seq(|s|, i requires 0 <= i < |s| => LowerChar(s[i]))
  }

  /** A word with no ASCII letter in it is unaffected by case: it occurs in
      the lower-cased text exactly when it occurs in the text itself. */
  lemma CaselessWord(s: string, word: string)
    requires forall j :: 0 <= j < |word| ==> !IsAsciiUpper(word[j]) && !IsAsciiLower(word[j])
    ensures Contains(Lower(s), word) <==> Contains(s, word)
  {
    var low := Lower(s);
    if Contains(low, word) {
      var i :| 0 <= i <= |low| - |word| && word <= low[i..];
      assert word == s[i..i + |word|] by {
        forall j | 0 <= j < |word| ensures word[j] == s[i + j] {
          assert word[j] == low[i + j];
        }
      }
      assert word <= s[i..];
    }
    if Contains(s, word) {
      var i :| 0 <= i <= |s| - |word| && word <= s[i..];
      assert word == low[i..i + |word|] by {
        forall j | 0 <= j < |word| ensures word[j] == low[i + j] {
          assert word[j] == s[i + j];
        }
      }
      assert word <= low[i..];
    }
  }
}
