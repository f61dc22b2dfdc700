/** The pieces of Go's `strings` package that channel fields are built with:
    splitting and joining on a one-character separator, and trimming. */
module Text {

  /** strings.Split(s, sep) for a one-character separator. */
  function Split(s: string, sep: char): (parts: seq<string>)
    ensures |parts| > 0
    ensures forall p :: p in parts ==> sep !in p
  {
    if s == "" then [""]
    else
      var rest := Split(s[1..], sep);
      if s[0] == sep then [""] + rest
      else
        var head := [s[0]] + rest[0];
        assert rest[0] in rest;
        [head] + rest[1..]
  }

  /** strings.Join(parts, sep). */
  function Join(parts: seq<string>, sep: char): string {
    if |parts| == 0 then ""
    else if |parts| == 1 then parts[0]
    else parts[0] + [sep] + Join(parts[1..], sep)
  }

  function TrimLeft(s: string, c: char): string {
    if s != "" && s[0] == c then TrimLeft(s[1..], c) else s
  }

  function TrimRight(s: string, c: char): string {
    if s != "" && s[|s| - 1] == c then TrimRight(s[..|s| - 1], c) else s
  }

  /** strings.Trim(s, c). */
  function Trim(s: string, c: char): string {
    TrimRight(TrimLeft(s, c), c)
  }

  /** How a channel reads a stored list: nothing for the empty string, and
      otherwise the parts between separators after trimming separators off
      both ends. */
  function Fields(s: string, sep: char): (parts: seq<string>)
    ensures forall p :: p in parts ==> sep !in p
  {
    if s == "" then [] else Split(Trim(s, sep), sep)
  }

  ghost predicate SepFree(parts: seq<string>, sep: char) {
    forall p :: p in parts ==> sep !in p
  }

  /** Splitting off one separator-free part. */
  lemma {:induction false} SplitPrefix(p: string, rest: string, sep: char)
    requires sep !in p
    ensures Split(p + [sep] + rest, sep) == [p] + Split(rest, sep)
    decreases |p|
  {
    var s := p + [sep] + rest;
    if p == "" {
      assert s[1..] == rest;
    } else {
      assert s[1..] == p[1..] + [sep] + rest;
      SplitPrefix(p[1..], rest, sep);
      assert [p[0]] + p[1..] == p;
    }
  }

  lemma {:induction false} SplitSingle(p: string, sep: char)
    requires sep !in p
    ensures Split(p, sep) == [p]
  {
    if p != "" {
      SplitSingle(p[1..], sep);
      assert [p[0]] + p[1..] == p;
    }
  }

  lemma {:induction false} SplitJoin(parts: seq<string>, sep: char)
    requires |parts| > 0 && SepFree(parts, sep)
    ensures Split(Join(parts, sep), sep) == parts
  {
    assert parts[0] in parts;
    if |parts| == 1 {
      SplitSingle(parts[0], sep);
    } else {
      assert SepFree(parts[1..], sep);
      SplitJoin(parts[1..], sep);
      SplitPrefix(parts[0], Join(parts[1..], sep), sep);
      assert [parts[0]] + parts[1..] == parts;
    }
  }

  lemma {:induction false} JoinHead(prefix: string, parts: seq<string>, sep: char)
    requires |parts| > 0
    ensures Join([prefix + parts[0]] + parts[1..], sep) == prefix + Join(parts, sep)
  {
    var joined := [prefix + parts[0]] + parts[1..];
    assert joined[1..] == parts[1..];
  }

  lemma {:induction false} JoinSplit(s: string, sep: char)
    ensures Join(Split(s, sep), sep) == s
  {
    if s != "" {
      JoinSplit(s[1..], sep);
      var rest := Split(s[1..], sep);
      if s[0] == sep {
        assert ([""] + rest)[1..] == rest;
        assert s == [sep] + s[1..];
      } else {
        var parts := Split(s, sep);
        JoinHead([s[0]], rest, sep);
        assert parts == [[s[0]] + rest[0]] + rest[1..];
        assert s == [s[0]] + s[1..];
      }
    }
  }

  lemma {:induction false} TrimLeftShape(s: string, c: char)
    ensures |TrimLeft(s, c)| <= |s|
    ensures s != "" && s[0] == c ==> |TrimLeft(s, c)| < |s|
  {
    if s != "" && s[0] == c { TrimLeftShape(s[1..], c); }
  }

  lemma {:induction false} TrimRightShape(s: string, c: char)
    ensures |TrimRight(s, c)| <= |s|
    ensures s != "" && s[|s| - 1] == c ==> |TrimRight(s, c)| < |s|
  {
    if s != "" && s[|s| - 1] == c { TrimRightShape(s[..|s| - 1], c); }
  }

  /** Trimming leaves a string alone exactly when neither end is the trimmed
      character. */
  lemma {:induction false} TrimFixes(s: string, c: char)
    ensures Trim(s, c) == s <==> s == "" || (s[0] != c && s[|s| - 1] != c)
  {
    TrimLeftShape(s, c);
    TrimRightShape(TrimLeft(s, c), c);
  }

  /** The text from `i` to `j`. */
  ghost predicate IsSlice(t: string, s: string, i: int, j: int) { 0 <= i <= j <= |s| && t == s[i..j] }

  lemma {:induction false} TrimLeftExact(s: string, c: char) returns (i: nat)
    ensures IsSlice(TrimLeft(s, c), s, i, |s|) && forall k :: 0 <= k < i ==> s[k] == c
    ensures TrimLeft(s, c) != "" ==> TrimLeft(s, c)[0] != c
  {
    i := 0;
    if s != "" && s[0] == c {
      i := TrimLeftExact(s[1..], c);
      i := i + 1;
    }
  }

  lemma {:induction false} TrimRightExact(s: string, c: char) returns (j: nat)
    ensures IsSlice(TrimRight(s, c), s, 0, j) && forall k :: j <= k < |s| ==> s[k] == c
    ensures TrimRight(s, c) != "" ==> TrimRight(s, c)[|TrimRight(s, c)| - 1] != c
  {
    j := |s|;
    if s != "" && s[|s| - 1] == c { j := TrimRightExact(s[..|s| - 1], c); }
  }

  /** Trimming takes the character off both ends and nothing else, until neither
      end is that character. */
  lemma {:induction false} TrimExact(s: string, c: char)
    ensures exists i, j :: IsSlice(Trim(s, c), s, i, j) && forall k :: 0 <= k < i || j <= k < |s| ==> s[k] == c
    ensures Trim(s, c) != "" ==> Trim(s, c)[0] != c && Trim(s, c)[|Trim(s, c)| - 1] != c
  {
    var i := TrimLeftExact(s, c);
    var rest := TrimLeft(s, c);
    var j := TrimRightExact(rest, c);
    assert forall k :: i + j <= k < |s| ==> s[k] == rest[k - i];
    assert IsSlice(Trim(s, c), s, i, i + j);
  }

  /** The last character of a join. */
  lemma {:induction false} JoinLast(parts: seq<string>, sep: char)
    requires |parts| > 0
    ensures parts[|parts| - 1] != "" ==>
              Join(parts, sep) != ""
              && Join(parts, sep)[|Join(parts, sep)| - 1] == parts[|parts| - 1][|parts[|parts| - 1]| - 1]
    ensures parts[|parts| - 1] == "" && |parts| > 1 ==>
              Join(parts, sep) != "" && Join(parts, sep)[|Join(parts, sep)| - 1] == sep
  {
    if |parts| > 1 { JoinLast(parts[1..], sep); }
  }

  /** Writing a list and reading it back returns it exactly when neither its
      first nor its last element is blank. */
  lemma {:induction false} FieldsJoin(parts: seq<string>, sep: char)
    requires |parts| > 0 && SepFree(parts, sep)
    ensures Fields(Join(parts, sep), sep) == parts <==> parts[0] != "" && parts[|parts| - 1] != ""
  {
    var s := Join(parts, sep);
    var last := parts[|parts| - 1];
    assert parts[0] in parts && last in parts;
    SplitJoin(parts, sep);
    TrimFixes(s, sep);
    JoinLast(parts, sep);
    if parts[0] != "" && last != "" {
      assert s[0] == parts[0][0];
      assert Trim(s, sep) == s;
    } else if s != "" {
      assert Trim(s, sep) != s;
      if Split(Trim(s, sep), sep) == parts {
        JoinSplit(Trim(s, sep), sep);
      }
    }
  }

  // ---------------------------------------------------------------------
  // strings.TrimSpace
  // ---------------------------------------------------------------------

  /** The characters unicode.IsSpace accepts. */
  predicate IsSpace(c: char) {
    || c == ' ' || '\t' <= c <= '\r' || c == '\U{0085}' || c == '\U{00A0}' || c == '\U{1680}'
    || '\U{2000}' <= c <= '\U{200A}' || c == '\U{2028}' || c == '\U{2029}'
    || c == '\U{202F}' || c == '\U{205F}' || c == '\U{3000}'
  }

  /** strings.TrimSpace(s). */
  function TrimSpace(s: string): (t: string)
    ensures t != "" ==> !IsSpace(t[0]) && !IsSpace(t[|t| - 1])
    ensures forall c :: c in t ==> c in s
    ensures s == "" || (!IsSpace(s[0]) && !IsSpace(s[|s| - 1])) ==> t == s
  {
    if s == "" then ""
    else if IsSpace(s[0]) then TrimSpace(s[1..])
    else if IsSpace(s[|s| - 1]) then TrimSpace(s[..|s| - 1])
    else s
  }

  lemma {:induction false} SpacesAround(s: string) returns (i: nat, j: nat)
    ensures IsSlice(TrimSpace(s), s, i, j) && forall k :: 0 <= k < i || j <= k < |s| ==> IsSpace(s[k])
  {
    hide IsSpace;
    i, j := 0, |s|;
    if s != "" {
      if IsSpace(s[0]) {
        var rest := s[1..];
        i, j := SpacesAround(rest);
        i, j := i + 1, j + 1;
        forall k | 0 <= k < i || j <= k < |s| ensures IsSpace(s[k]) {
          if k > 0 { assert s[k] == rest[k - 1]; }
        }
      } else if IsSpace(s[|s| - 1]) {
        var init := s[..|s| - 1];
        i, j := SpacesAround(init);
        forall k | 0 <= k < i || j <= k < |s| ensures IsSpace(s[k]) {
          if k < |init| { assert s[k] == init[k]; }
        }
      }
    }
  }

  /** Trimming takes space off both ends and nothing else, until neither end is a
      space. */
  lemma {:induction false} TrimSpaceExact(s: string)
    ensures var t := TrimSpace(s);
            && (exists i, j :: IsSlice(t, s, i, j) && forall k :: 0 <= k < i || j <= k < |s| ==> IsSpace(s[k]))
            && (t != "" ==> !IsSpace(t[0]) && !IsSpace(t[|t| - 1]))
  {
    hide IsSpace;
    var i, j := SpacesAround(s);
  }

  /** The elements, trimmed, that are not blank. */
  function NonBlank(parts: seq<string>): seq<string> {
    if parts == [] then []
    else
      var last := TrimSpace(parts[|parts| - 1]);
      NonBlank(parts[..|parts| - 1]) + if last != "" then [last] else []
  }

  /** Each element stands for itself, trimmed, or for nothing when it is blank. */
  lemma {:induction false} NonBlankExact(a: seq<string>, b: seq<string>, p: string)
    ensures NonBlank([p]) == if TrimSpace(p) == "" then [] else [TrimSpace(p)]
    ensures NonBlank(a + b) == NonBlank(a) + NonBlank(b)
  {
    assert [p][..0] == [];
    if b == [] {
      assert a + b == a;
    } else {
      assert (a + b)[..|a + b| - 1] == a + b[..|b| - 1];
      NonBlankExact(a, b[..|b| - 1], p);
    }
  }

  lemma {:induction false} NonBlankElements(parts: seq<string>)
    ensures forall m :: m in NonBlank(parts) <==> m != "" && exists p :: p in parts && TrimSpace(p) == m
  {
    hide TrimSpace;
    if parts != [] {
      var last := parts[|parts| - 1];
      NonBlankElements(parts[..|parts| - 1]);
      var init := parts[..|parts| - 1];
      assert parts == init + [last];
      forall m ensures m in NonBlank(parts) <==> m != "" && exists p :: p in parts && TrimSpace(p) == m {
        if p :| p in parts && TrimSpace(p) == m { assert p in init || p == last; }
        if p :| p in init && TrimSpace(p) == m { assert p in parts; }
        assert last in parts;
      }
    }
  }
}
