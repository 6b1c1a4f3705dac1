/**
 * Publishing the marker into the active build target's scripting define
 * symbols, a `;`-joined string. Presence is decided by a substring test on the
 * whole string, not by membership in the `;`-separated list.
 */
module Symbols {

  /** `m` occurs in `s` starting at index `i`. */
  predicate OccursAt(s: string, m: string, i: int) {
    0 <= i && i + |m| <= |s| && s[i..i + |m|] == m
  }

  /** string.Contains (ordinal). */
  predicate Contains(s: string, m: string) {
    exists i | 0 <= i <= |s| :: OccursAt(s, m, i)
  }

  /**
   * The symbol string DefineConstraint writes back: unchanged when the marker
   * already occurs in it, otherwise the old string followed by `;` and the
   * marker. Either way nothing is removed and the marker now occurs.
   */
  function Published(symbols: string, marker: string): (r: string)
    ensures Contains(r, marker)
    ensures |symbols| <= |r| && r[..|symbols|] == symbols
    ensures Contains(symbols, marker) ==> r == symbols
    ensures !Contains(symbols, marker) ==> |r| == |symbols| + 1 + |marker|
  {
    if Contains(symbols, marker) then symbols
    else
      var r := symbols + ";" + marker;
      assert OccursAt(r, marker, |symbols| + 1);
      r
  }

  /** Publishing twice gives what publishing once gives. */
  lemma PublishedIdempotent(symbols: string, marker: string)
    ensures Published(Published(symbols, marker), marker) == Published(symbols, marker)
  {
  }

  /** The `;`-separated entries of a define-symbol string (an empty string is one empty entry). */
  function Split(s: string): (r: seq<string>)
    ensures |r| >= 1 && r[0] <= s
    ensures forall k :: 0 <= k < |r| ==> ';' !in r[k]
  {
    if s == [] then [""]
    else
      var rest := Split(s[1..]);
      if s[0] == ';' then [""] + rest
      else [[s[0]] + rest[0]] + rest[1..]
  }

  /** Split, one character at a time. */
  lemma SplitCons(c: char, t: string)
    ensures Split([c] + t) ==
      if c == ';' then [""] + Split(t) else [[c] + Split(t)[0]] + Split(t)[1..]
  {
    assert ([c] + t)[0] == c && ([c] + t)[1..] == t;
  }

  /** A `;` splits the string into the entries before it followed by the entries after it. */
  lemma {:induction false} SplitConcat(a: string, b: string)
    ensures Split(a + ";" + b) == Split(a) + Split(b)
  {
    if a == [] {
      assert a + ";" + b == [';'] + b;
      SplitCons(';', b);
    } else {
      var t := a[1..];
      assert a == [a[0]] + t;
      assert a + ";" + b == [a[0]] + (t + ";" + b);
      SplitConcat(t, b);
      SplitCons(a[0], t + ";" + b);
      SplitCons(a[0], t);
    }
  }

  /** A string without `;` is a single entry. */
  lemma {:induction false} SplitSingle(m: string)
    requires ';' !in m
    ensures Split(m) == [m]
  {
    if m != [] {
      SplitSingle(m[1..]);
      assert [m[0]] + m[1..] == m;
    }
  }

  /** An occurrence in the tail of a string is an occurrence in the string, one place further. */
  lemma OccursShift(s: string, m: string, i: int)
    requires s != [] && OccursAt(s[1..], m, i)
    ensures OccursAt(s, m, i + 1)
  {
    assert s[i + 1..i + 1 + |m|] == s[1..][i..i + |m|];
  }

  /** An entry of the list occurs in the string, so the substring test never appends a second copy of an entry. */
  lemma {:induction false} EntryOccurs(s: string, m: string)
    requires m in Split(s)
    ensures Contains(s, m)
  {
    if s == [] {
      assert OccursAt(s, m, 0);
    } else {
      var rest := Split(s[1..]);
      if s[0] == ';' {
        if m == "" {
          assert OccursAt(s, m, 0);
        } else {
          EntryOccurs(s[1..], m);
          var i :| 0 <= i <= |s[1..]| && OccursAt(s[1..], m, i);
          OccursShift(s, m, i);
        }
      } else if m == [s[0]] + rest[0] {
        assert s == [s[0]] + s[1..];
        assert OccursAt(s, m, 0);
      } else {
        assert m in rest;
        EntryOccurs(s[1..], m);
        var i :| 0 <= i <= |s[1..]| && OccursAt(s[1..], m, i);
        OccursShift(s, m, i);
      }
    }
  }

  /** When the marker (which holds no `;`) is appended, the entry list gains exactly the marker at its end. */
  lemma PublishedEntries(symbols: string, marker: string)
    requires ';' !in marker && !Contains(symbols, marker)
    ensures Split(Published(symbols, marker)) == Split(symbols) + [marker]
  {
    SplitConcat(symbols, marker);
    SplitSingle(marker);
  }

  /** Whenever the marker is already an entry, the symbol string is written back unchanged. */
  lemma PublishedKeepsEntry(symbols: string, marker: string)
    requires marker in Split(symbols)
    ensures Published(symbols, marker) == symbols
  {
    EntryOccurs(symbols, marker);
  }

  /**
   * The substring test also treats a longer symbol that merely starts with the
   * marker as the marker: `marker + "X"` is left as it is, although the marker
   * is not one of its entries.
   */
  lemma {:induction false} PrefixedSymbolSuppressesMarker(marker: string)
    requires ';' !in marker
    ensures Published(marker + "X", marker) == marker + "X"
    ensures marker !in Split(marker + "X")
  {
    assert OccursAt(marker + "X", marker, 0);
    SplitSingle(marker + "X");
    assert |marker + "X"| != |marker|;
  }
}
