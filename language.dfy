/** The finite language of Language.java: a set of strings with membership,
    insertion that reports whether anything changed, and concatenation. */
module Languages {

  /** The concatenation of two sets of strings: every prefix followed by
      every suffix. */
  function Concat(prefixes: set<string>, suffixes: set<string>): set<string>
  {
    set p, s | p in prefixes && s in suffixes :: p + s
  }

  /** The strings `prefix + s` for `s` in `suffixes`. */
  function Prefixed(prefix: string, suffixes: set<string>): set<string>
  {
    set s | s in suffixes :: prefix + s
  }

  /** A language whose strings are held in the updatable set `strings`. */
  class Language {
    var strings: set<string>

    /** A new language has no strings. */
    constructor()
      ensures strings == {}
      ensures IsEmpty() && Cardinality() == 0
    {
      strings := {};
    }

    /** The language is empty exactly when it includes no string. */
    predicate IsEmpty()
      reads this
      ensures IsEmpty() <==> forall s :: !Includes(s)
    {
      IncludesNothing(this);
      strings == {}
    }

    /** The number of strings; zero exactly for the empty language. */
    function Cardinality(): (n: nat)
      reads this
      ensures n == 0 <==> IsEmpty()
    {
      |strings|
    }

    /** Membership of `candidate` in the language. */
    predicate Includes(candidate: string)
      reads this
    {
      candidate in strings
    }

    /** Adds a string; reports whether it was absent. */
    method AddString(memberString: string) returns (changed: bool)
      modifies this
      ensures changed <==> !old(Includes(memberString))
      ensures strings == old(strings) + {memberString}
      ensures Includes(memberString)
      ensures forall t :: t != memberString ==> (Includes(t) <==> old(Includes(t)))
    {
      changed := memberString !in strings;
      strings := strings + {memberString};
    }

    /** Adds every string of a collection, one after the other; reports
        whether any of them was absent. */
    method AddAllStrings(memberStrings: seq<string>) returns (changed: bool)
      modifies this
      ensures strings == old(strings) + set s | s in memberStrings
      ensures changed <==> strings != old(strings)
      ensures changed <==> exists s :: s in memberStrings && !old(Includes(s))
    {
      changed := false;
      for i := 0 to |memberStrings|
        invariant strings == old(strings) + set s | s in memberStrings[..i]
        invariant changed <==> strings != old(strings)
      {
        assert memberStrings[..i + 1] == memberStrings[..i] + [memberStrings[i]];
        var added := AddString(memberStrings[i]);
        changed := changed || added;
      }
      assert memberStrings[..|memberStrings|] == memberStrings;
      if changed {
        ghost var s :| s in strings && s !in old(strings);
        assert s in memberStrings && !old(Includes(s));
      }
    }

    /** A new language holding every string of this language followed by
        every string of `language`. Neither operand changes. */
    method Concatenate(language: Language) returns (newLang: Language)
      ensures fresh(newLang)
      ensures newLang.strings == Concat(strings, language.strings)
    {
      newLang := new Language();
      var prefixes := strings;
      var suffixes := language.strings;
      var prefixesLeft := prefixes;
      while prefixesLeft != {}
        invariant prefixesLeft <= prefixes
        invariant fresh(newLang)
        invariant newLang.strings == Concat(prefixes - prefixesLeft, suffixes)
        decreases prefixesLeft
      {
        var prefix :| prefix in prefixesLeft;
        var suffixesLeft := suffixes;
        while suffixesLeft != {}
          invariant suffixesLeft <= suffixes
          invariant newLang.strings ==
            Concat(prefixes - prefixesLeft, suffixes) + Prefixed(prefix, suffixes - suffixesLeft)
          decreases suffixesLeft
        {
          var suffix :| suffix in suffixesLeft;
          var _ := newLang.AddString(prefix + suffix);
          PrefixedOneMore(prefix, suffixes, suffixesLeft, suffix);
          suffixesLeft := suffixesLeft - {suffix};
        }
        assert suffixes - suffixesLeft == suffixes;
        ConcatOneMore(prefixes, prefixesLeft, prefix, suffixes);
        prefixesLeft := prefixesLeft - {prefix};
      }
      assert prefixes - prefixesLeft == prefixes;
    }

    /** Two languages are equal exactly when they hold the same strings
        (the identity test of the source is a shortcut of this). */
    predicate Equals(obj: Language?)
      reads this, obj
      ensures Equals(obj) <==> obj != null && strings == obj.strings
    {
      this == obj || (obj != null && strings == obj.strings)
    }
  }

  /** A language holds no strings exactly when it includes none. */
  lemma IncludesNothing(language: Language)
    ensures language.strings == {} <==> forall s :: !language.Includes(s)
  {
    if language.strings != {} {
      var s :| s in language.strings;
      assert language.Includes(s);
    }
  }

  /** Concatenating one more prefix adds the strings it starts. */
  lemma ConcatAddPrefix(prefixes: set<string>, prefix: string, suffixes: set<string>)
    ensures Concat(prefixes + {prefix}, suffixes) == Concat(prefixes, suffixes) + Prefixed(prefix, suffixes)
  {
  }

  lemma PrefixedOneMore(prefix: string, suffixes: set<string>, left: set<string>, suffix: string)
    requires suffix in left && left <= suffixes
    ensures Prefixed(prefix, suffixes - (left - {suffix})) == Prefixed(prefix, suffixes - left) + {prefix + suffix}
  {
  }

  lemma ConcatOneMore(prefixes: set<string>, left: set<string>, prefix: string, suffixes: set<string>)
    requires prefix in left && left <= prefixes
    ensures Concat(prefixes - (left - {prefix}), suffixes) ==
      Concat(prefixes - left, suffixes) + Prefixed(prefix, suffixes)
  {
    assert prefixes - (left - {prefix}) == (prefixes - left) + {prefix};
    ConcatAddPrefix(prefixes - left, prefix, suffixes);
  }

  /** Concatenating with the empty language gives the empty language, on
      either side. */
  lemma ConcatWithEmpty(strings: set<string>)
    ensures Concat(strings, {}) == {} && Concat({}, strings) == {}
  {
  }

  /** The language holding only the empty string is the identity of
      concatenation. */
  lemma ConcatIdentity(strings: set<string>)
    ensures Concat(strings, {""}) == strings
    ensures Concat({""}, strings) == strings
  {
    ConcatRightIdentity(strings);
    ConcatLeftIdentity(strings);
  }

  lemma ConcatRightIdentity(strings: set<string>)
    ensures Concat(strings, {""}) == strings
  {
    forall w | w in Concat(strings, {""})
      ensures w in strings
    {
      var p, s :| p in strings && s in {""} && w == p + s;
      assert w == p;
    }
    forall w | w in strings
      ensures w in Concat(strings, {""})
    {
      assert w == w + "";
    }
  }

  lemma ConcatLeftIdentity(strings: set<string>)
    ensures Concat({""}, strings) == strings
  {
    forall w | w in Concat({""}, strings)
      ensures w in strings
    {
      var p, s :| p in {""} && s in strings && w == p + s;
      assert w == s;
    }
    forall w | w in strings
      ensures w in Concat({""}, strings)
    {
      assert w == "" + w;
    }
  }

  /** Concatenation is associative. */
  lemma ConcatAssociative(a: set<string>, b: set<string>, c: set<string>)
    ensures Concat(Concat(a, b), c) == Concat(a, Concat(b, c))
  {
    forall w | w in Concat(Concat(a, b), c)
      ensures w in Concat(a, Concat(b, c))
    {
      var x, z :| x in Concat(a, b) && z in c && w == x + z;
      var p, y :| p in a && y in b && x == p + y;
      assert w == p + (y + z);
    }
    forall w | w in Concat(a, Concat(b, c))
      ensures w in Concat(Concat(a, b), c)
    {
      var p, x :| p in a && x in Concat(b, c) && w == p + x;
      var y, z :| y in b && z in c && x == y + z;
      assert w == (p + y) + z;
    }
  }

  /** Distinct suffixes give distinct strings after the same prefix. */
  lemma {:induction false} PrefixedCardinality(prefix: string, suffixes: set<string>)
    ensures |Prefixed(prefix, suffixes)| == |suffixes|
    decreases |suffixes|
  {
    if suffixes != {} {
      var s :| s in suffixes;
      var rest := suffixes - {s};
      PrefixedCardinality(prefix, rest);
      assert Prefixed(prefix, suffixes) == Prefixed(prefix, rest) + {prefix + s};
      forall t | t in rest
        ensures prefix + t != prefix + s
      {
        assert (prefix + t)[|prefix|..] == t && (prefix + s)[|prefix|..] == s;
      }
    } else {
      assert Prefixed(prefix, suffixes) == {};
    }
  }

  /** A concatenation holds at most as many strings as the product of the
      operands' cardinalities. */
  lemma {:induction false} ConcatCardinality(prefixes: set<string>, suffixes: set<string>)
    ensures |Concat(prefixes, suffixes)| <= |prefixes| * |suffixes|
    decreases |prefixes|
  {
    if prefixes != {} {
      var p :| p in prefixes;
      var rest := prefixes - {p};
      ConcatCardinality(rest, suffixes);
      ConcatAddPrefix(rest, p, suffixes);
      assert rest + {p} == prefixes;
      PrefixedCardinality(p, suffixes);
      assert |prefixes| * |suffixes| == |rest| * |suffixes| + |suffixes|;
    } else {
      assert Concat(prefixes, suffixes) == {};
    }
  }
}
