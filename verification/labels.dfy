/** Atom labels of a `lat.in` text and how they are taken apart.

    ATAT writes the species of an abstract SQS site as `name_Symbol`: the
    sublattice name, an underscore, and the abstract symbol. The conversion
    lower-cases the label and splits it on `_` with Python's `str.split`,
    keeping the first piece as the sublattice name and the second as the
    symbol; a label without `_` has no second piece and raises.
 */
module Labels {
  import opened Outcomes

  predicate IsUpper(c: char) { 'A' <= c <= 'Z' }

  /** `str.lower` on one character of a label. Labels are made of ASCII
      letters and `_` only, so ASCII case mapping is all that applies. */
  function LowerChar(c: char): (r: char)
    ensures !IsUpper(r)
    ensures IsUpper(c) ==> 'a' <= r <= 'z' && r as int == c as int + 32
    ensures !IsUpper(c) ==> r == c
  {
    if IsUpper(c) then (c as int + 32) as char else c
  }

  /** `str.lower`: character by character, upper-case letters to lower case,
      everything else unchanged. */
  function Lower(s: string): (r: string)
    ensures |r| == |s|
    ensures forall k :: 0 <= k < |s| ==> r[k] == LowerChar(s[k])
  {
    seq(|s|, k requires 0 <= k < |s| => LowerChar(s[k]))
  }

  /** Lower-casing neither creates nor removes an underscore. */
  lemma LowerKeepsUnderscore(s: string)
    ensures '_' in Lower(s) <==> '_' in s
  {
    if '_' in s {
      var k :| 0 <= k < |s| && s[k] == '_';
      assert Lower(s)[k] == '_';
    }
    if '_' in Lower(s) {
      var k :| 0 <= k < |s| && Lower(s)[k] == '_';
      assert s[k] == '_';
    }
  }

  /** Python's `s.split(c)`: the pieces between occurrences of `c`, with an
      empty piece before a leading, after a trailing and between two adjacent
      separators; the empty string splits into one empty piece. */
  function Split(s: string, c: char): (r: seq<string>)
    ensures |r| > 0
    ensures forall k :: 0 <= k < |r| ==> c !in r[k]
    decreases |s|
  {
    if |s| == 0 then [""]
    else
      var rest := Split(s[1..], c);
      if s[0] == c then [""] + rest
      else
        assert forall k :: 1 <= k < |rest| ==> ([[s[0]] + rest[0]] + rest[1..])[k] == rest[k];
        [[s[0]] + rest[0]] + rest[1..]
  }

  /** `c.join(parts)`: the inverse of `Split`. */
  function Join(parts: seq<string>, c: char): string
    requires |parts| > 0
  {
    if |parts| == 1 then parts[0] else parts[0] + [c] + Join(parts[1..], c)
  }

  /** Joining the pieces back with the separator restores the string. */
  lemma {:induction false} JoinSplit(s: string, c: char)
    ensures Join(Split(s, c), c) == s
    decreases |s|
  {
    if |s| > 0 {
      var rest := Split(s[1..], c);
      JoinSplit(s[1..], c);
      if s[0] == c {
        assert Split(s, c)[1..] == rest;
      } else {
        var r := Split(s, c);
        if |rest| == 1 {
          assert r == [[s[0]] + rest[0]];
        } else {
          assert r[1..] == rest[1..];
          assert Join(rest, c) == rest[0] + [c] + Join(rest[1..], c);
        }
      }
      assert s == [s[0]] + s[1..];
    }
  }

  /** Splitting a join of separator-free pieces gives the pieces back. */
  lemma {:induction false} SplitJoin(parts: seq<string>, c: char)
    requires |parts| > 0
    requires forall k :: 0 <= k < |parts| ==> c !in parts[k]
    ensures Split(Join(parts, c), c) == parts
    decreases |parts|, |parts[0]|
  {
    var p := parts[0];
    if |p| > 0 {
      var parts' := [p[1..]] + parts[1..];
      assert c !in parts'[0];
      SplitJoin(parts', c);
      var j := Join(parts, c);
      if |parts| == 1 {
        assert j[1..] == Join(parts', c);
      } else {
        assert j[1..] == Join(parts', c);
      }
      assert j[0] == p[0];
      assert [p[0]] + p[1..] == p;
      assert parts'[1..] == parts[1..];
      assert parts == [[p[0]] + parts'[0]] + parts'[1..];
    } else if |parts| > 1 {
      SplitJoin(parts[1..], c);
      var j := Join(parts, c);
      assert j == [c] + Join(parts[1..], c);
      assert j[1..] == Join(parts[1..], c);
    }
  }

  /** There is a second piece exactly when the separator occurs. */
  lemma {:induction false} SplitIsSingle(s: string, c: char)
    ensures |Split(s, c)| == 1 <==> c !in s
    decreases |s|
  {
    if |s| > 0 {
      SplitIsSingle(s[1..], c);
      assert c in s <==> s[0] == c || c in s[1..] by {
        assert s == [s[0]] + s[1..];
      }
    }
  }

  /** The first two pieces, with one separator between them, begin the string,
      and a separator or the end of the string follows them. */
  lemma SplitHead(s: string, c: char)
    requires |Split(s, c)| >= 2
    ensures Split(s, c)[0] + [c] + Split(s, c)[1] <= s
    ensures |Split(s, c)[0]| + 1 + |Split(s, c)[1]| == |s|
         || s[|Split(s, c)[0]| + 1 + |Split(s, c)[1]|] == c
  {
    var parts := Split(s, c);
    JoinSplit(s, c);
    var tail := parts[1..];
    assert s == parts[0] + [c] + Join(tail, c);
    if |tail| > 1 {
      assert Join(tail, c) == parts[1] + [c] + Join(tail[1..], c);
      assert s == parts[0] + [c] + parts[1] + ([c] + Join(tail[1..], c));
    } else {
      assert s == parts[0] + [c] + parts[1];
    }
  }

  /** How a site label becomes a (sublattice name, symbol) pair: lower-case,
      split on `_`, keep the first two pieces. The pieces hold no underscore,
      they and one underscore between them begin the lower-cased label, and an
      underscore or the end of the label follows them; so the name is the
      label up to its first `_` and the symbol runs to the next one. */
  function SplitLabel(word: string): (r: Result<(string, string)>)
    ensures r.Err? <==> '_' !in word
    ensures r.Err? ==> r.error == MissingDelimiter
    ensures r.Ok? ==> '_' !in r.value.0 && '_' !in r.value.1
    ensures r.Ok? ==> r.value.0 + "_" + r.value.1 <= Lower(word)
    ensures r.Ok? ==> var n := |r.value.0| + 1 + |r.value.1|;
                      n == |word| || Lower(word)[n] == '_'
  {
    var parts := Split(Lower(word), '_');
    SplitIsSingle(Lower(word), '_');
    LowerKeepsUnderscore(word);
    if |parts| < 2 then Err(MissingDelimiter)
    else
      SplitHead(Lower(word), '_');
      Ok((parts[0], parts[1]))
  }

  /** The label `aej_Af` of a multi-character sublattice and symbol. */
  lemma SplitLabelExample()
    ensures SplitLabel("aej_Af") == Ok(("aej", "af"))
  {
    var r := SplitLabel("aej_Af");
    assert Lower("aej_Af") == "aej_af";
    assert Split("aej_af", '_') == ["aej", "af"] by {
      SplitJoin(["aej", "af"], '_');
      assert Join(["aej", "af"], '_') == "aej_af";
    }
  }
}
