// The extensions of a file name, from the last one to the first: the text
// after each '.', up to the next '.' or the end of the name.
module Extensions {

  /**
   * `s.lastIndexOf(c, from)`: the largest index at most `from` holding `c`,
   * or -1. A `from` past the end searches the whole string.
   */
  function LastIndexOf(s: string, c: char, from: int): (r: int)
    ensures -1 <= r < |s| && (0 <= r ==> r <= from)
    ensures 0 <= r ==> s[r] == c
    ensures forall k :: r < k < |s| && k <= from ==> s[k] != c
    decreases from + 1
  {
    if from < 0 then -1
    else if from >= |s| then LastIndexOf(s, c, |s| - 1)
    else if s[from] == c then from
    else LastIndexOf(s, c, from - 1)
  }

  /** The extensions of `s` in the order they are yielded: last to first. */
  ghost function Exts(s: string): seq<string>
    decreases |s|
  {
    var d := LastIndexOf(s, '.', |s| - 1);
    if d < 0 then [] else [s[d + 1..]] + Exts(s[..d])
  }

  /** The stem: the text before the first '.'. */
  ghost function Stem(s: string): string
    decreases |s|
  {
    var d := LastIndexOf(s, '.', |s| - 1);
    if d < 0 then s else Stem(s[..d])
  }

  /** Puts the extensions back, each after a '.', first extension leftmost. */
  ghost function Dotted(es: seq<string>): string
  {
    if es == [] then [] else Dotted(es[1..]) + ['.'] + es[0]
  }

  /** The number of occurrences of `c` in `s`. */
  ghost function Occurrences(s: string, c: char): nat
  {
    if s == [] then 0 else Occurrences(s[..|s| - 1], c) + (if s[|s| - 1] == c then 1 else 0)
  }

  /**
   * `ExtensionsIterator`: `end` bounds the part of the name still to be read;
   * `dot < end` means the '.' before the next extension has been found.
   */
  class ExtensionsIterator {
    const name: string
    var dot: int
    var end: int

    ghost predicate Valid()
      reads this
    {
      0 <= dot <= end <= |name| &&
      (dot < end ==> dot == LastIndexOf(name, '.', end - 1))
    }

    /** The extensions that successive `next()` calls will return. */
    ghost function Remaining(): seq<string>
      reads this
      requires Valid()
    {
      Exts(name[..end])
    }

    constructor (name: string)
      ensures this.name == name && Valid()
      ensures Remaining() == Exts(name)
    {
      this.name := name;
      dot := |name|;
      end := |name|;
      new;
      assert name[..|name|] == name;
    }

    /** `findNext()`: looks for the last '.' before `end`. */
    method FindNext() returns (ok: bool)
      requires Valid()
      modifies this
      ensures Valid() && end == old(end)
      ensures ok <==> 0 <= LastIndexOf(name, '.', end - 1)
      ensures ok ==> dot < end
      ensures !ok ==> dot == old(dot)
    {
      var cand := LastIndexOf(name, '.', end - 1);
      ok := cand != -1;
      if ok {
        dot := cand;
      }
    }

    /** `ensureNext()`: whether another extension is left, finding its '.' if needed. */
    method EnsureNext() returns (b: bool)
      requires Valid()
      modifies this
      ensures Valid() && end == old(end)
      ensures b <==> Remaining() != []
      ensures b <==> dot < end
    {
      if dot < end {
        b := true;
      } else {
        b := FindNext();
      }
      RemainingNonEmpty(name, end);
    }

    /** `hasNext()`: repeated calls leave what is still to come untouched. */
    method HasNext() returns (b: bool)
      requires Valid()
      modifies this
      ensures Valid() && Remaining() == old(Remaining())
      ensures b <==> Remaining() != []
    {
      b := EnsureNext();
    }

    /** `next()`: the text between the found '.' and `end`; fails once no '.' is left. */
    method Next() returns (ext: Option<string>)
      requires Valid()
      modifies this
      ensures Valid()
      ensures old(Remaining()) == [] ==> ext == None && Remaining() == []
      ensures old(Remaining()) != [] ==>
        ext == Some(old(Remaining())[0]) && Remaining() == old(Remaining())[1..]
    {
      var ok := EnsureNext();
      if !ok {
        return None;
      }
      ExtsAtDot(name, end, dot);
      ext := Some(name[dot + 1..end]);
      end := dot;
    }
  }

  datatype Option<T> = None | Some(value: T)

  /** `of(name)`: a fresh iterator over the extensions of `name`. */
  method Of(name: string) returns (it: ExtensionsIterator)
    ensures fresh(it) && it.Valid() && it.name == name
    ensures it.Remaining() == Exts(name)
  {
    it := new ExtensionsIterator(name);
  }

  //----------------------------------------------------------------------
  // Lemmas

  /** Searching a prefix of `s` from its last index finds the same '.' as searching `s`. */
  lemma {:induction false} PrefixLastDot(s: string, end: int)
    requires 0 <= end <= |s|
    ensures LastIndexOf(s[..end], '.', end - 1) == LastIndexOf(s, '.', end - 1)
  {
  }

  /** Before `end`, the last extension follows the last '.', and the others are those before that '.'. */
  lemma {:induction false} ExtsAtDot(s: string, end: int, dot: int)
    requires 0 <= dot < end <= |s| && dot == LastIndexOf(s, '.', end - 1)
    ensures Exts(s[..end]) == [s[dot + 1..end]] + Exts(s[..dot])
  {
    PrefixLastDot(s, end);
    assert s[..end][dot + 1..] == s[dot + 1..end];
    assert s[..end][..dot] == s[..dot];
  }

  /** Extensions remain before `end` exactly when a '.' occurs before it. */
  lemma {:induction false} RemainingNonEmpty(s: string, end: int)
    requires 0 <= end <= |s|
    ensures Exts(s[..end]) != [] <==> 0 <= LastIndexOf(s, '.', end - 1)
  {
    PrefixLastDot(s, end);
    ExtsNonEmpty(s[..end]);
  }

  lemma {:induction false} ExtsNonEmpty(s: string)
    ensures Exts(s) != [] <==> 0 <= LastIndexOf(s, '.', |s| - 1)
  {
  }

  lemma {:induction false} ExtsHaveNoDot(s: string)
    ensures forall k :: 0 <= k < |Exts(s)| ==> '.' !in Exts(s)[k]
  {
    var d := LastIndexOf(s, '.', |s| - 1);
    if d >= 0 {
      ExtsHaveNoDot(s[..d]);
      forall i | d + 1 <= i < |s|
        ensures s[i] != '.'
      {
      }
      assert '.' !in s[d + 1..];
    }
  }

  /** One extension per '.', the empty ones from adjacent or trailing dots included. */
  lemma {:induction false} ExtsCount(s: string)
    ensures |Exts(s)| == Occurrences(s, '.')
  {
    var d := LastIndexOf(s, '.', |s| - 1);
    if d < 0 {
      NoDotNoOccurrence(s);
    } else {
      ExtsCount(s[..d]);
      DotAt(s, d);
    }
  }

  lemma {:induction false} NoDotNoOccurrence(s: string)
    requires forall k :: 0 <= k < |s| ==> s[k] != '.'
    ensures Occurrences(s, '.') == 0
  {
    if s != [] {
      NoDotNoOccurrence(s[..|s| - 1]);
    }
  }

  /** Occurrences of '.' when d is the last one. */
  lemma {:induction false} DotAt(s: string, d: int)
    requires 0 <= d < |s| && s[d] == '.'
    requires forall k :: d < k < |s| ==> s[k] != '.'
    ensures Occurrences(s, '.') == Occurrences(s[..d], '.') + 1
    decreases |s|
  {
    if d < |s| - 1 {
      var t := s[..|s| - 1];
      assert t[..d] == s[..d];
      DotAt(t, d);
    } else {
      assert s[..|s| - 1] == s[..d];
    }
  }

  /** The name is its stem, which holds no '.', followed by every extension after a '.'. */
  lemma {:induction false} ExtsRebuild(s: string)
    ensures s == Stem(s) + Dotted(Exts(s))
    ensures '.' !in Stem(s)
  {
    var d := LastIndexOf(s, '.', |s| - 1);
    if d < 0 {
      forall i | 0 <= i < |s|
        ensures s[i] != '.'
      {
      }
    } else {
      ExtsRebuild(s[..d]);
      RebuildAtDot(s, d);
    }
  }

  /** The rebuilding of the text before the last '.' extends to the whole name. */
  lemma {:induction false} RebuildAtDot(s: string, d: int)
    requires 0 <= d && d == LastIndexOf(s, '.', |s| - 1)
    requires s[..d] == Stem(s[..d]) + Dotted(Exts(s[..d]))
    ensures s == Stem(s) + Dotted(Exts(s))
  {
    var es, t := Exts(s), s[..d];
    assert es == [s[d + 1..]] + Exts(t);
    assert es[1..] == Exts(t);
    assert Dotted(es) == Dotted(Exts(t)) + ['.'] + s[d + 1..];
    assert Stem(s) == Stem(t);
    GlueAtDot(s, d, Stem(t), Dotted(Exts(t)));
  }

  /** A name split at a '.' is the text before it, the '.', and the text after it. */
  lemma {:induction false} GlueAtDot(s: string, d: int, a: string, b: string)
    requires 0 <= d < |s| && s[d] == '.' && s[..d] == a + b
    ensures s == a + (b + ['.'] + s[d + 1..])
  {
    assert s[d..] == ['.'] + s[d + 1..];
    assert s == s[..d] + s[d..];
  }

  lemma {:induction false} ExtsExample()
    ensures Exts("a.tar.gz") == ["gz", "tar"]
    ensures Exts("a..b.") == ["", "b", ""]
    ensures Exts("README") == []
  {
    assert LastIndexOf("a.tar.gz", '.', 7) == 5;
    assert "a.tar.gz"[..5] == "a.tar";
    assert LastIndexOf("a.tar", '.', 4) == 1;
    assert "a.tar"[..1] == "a";
    assert LastIndexOf("a", '.', 0) == -1;
    assert LastIndexOf("a..b.", '.', 4) == 4;
    assert "a..b."[..4] == "a..b";
    assert LastIndexOf("a..b", '.', 3) == 2;
    assert "a..b"[..2] == "a.";
    assert LastIndexOf("a.", '.', 1) == 1;
    assert "a."[..1] == "a";
    assert "a."[2..] == "";
    assert "a..b"[3..] == "b";
    assert "a..b."[5..] == "";
    assert LastIndexOf("README", '.', 5) == -1;
  }
}
