/** The character classes the generator script matches on, and the two forms
    of Python's `str.strip` it uses: `strip()` on the generated content and
    `strip('-')` on the file-name stem. */
module PyText {

  /** The character classes: what `str.isspace()` accepts, the dash, and
      the regular-expression class `[^a-z0-9]`. */
  datatype CharClass = Space | Dash | NonWord

  /** The class `[a-z0-9]`. */
  predicate IsWordChar(c: char) {
    'a' <= c <= 'z' || '0' <= c <= '9'
  }

  /** The characters Python's `str.isspace()` accepts, which `str.strip()`
      with no argument removes from both ends. */
  predicate IsSpace(c: char) {
    c == ' ' || ('\t' <= c <= '\r') || ('\U{1C}' <= c <= '\U{1F}')
    || c == '\U{85}' || c == '\U{A0}' || c == '\U{1680}'
    || ('\U{2000}' <= c <= '\U{200A}') || c == '\U{2028}' || c == '\U{2029}'
    || c == '\U{202F}' || c == '\U{205F}' || c == '\U{3000}'
  }

  predicate In(c: char, cls: CharClass) {
    match cls
    case Space => IsSpace(c)
    case Dash => c == '-'
    case NonWord => !IsWordChar(c)
  }

  /** `s.lstrip(chars)`: drops the longest prefix of characters in `cls`. */
  function TrimStart(s: string, cls: CharClass): (r: string)
    ensures |r| <= |s| && (s != [] && In(s[0], cls) ==> |r| < |s|)
    ensures r != [] ==> !In(r[0], cls)
  {
    if s != [] && In(s[0], cls) then TrimStart(s[1..], cls) else s
  }

  /** `s.rstrip(chars)`: drops the longest suffix of characters in `cls`. */
  function TrimEnd(s: string, cls: CharClass): (r: string)
    ensures |r| <= |s|
    ensures r != [] ==> !In(r[|r| - 1], cls)
  {
    if s != [] && In(s[|s| - 1], cls) then TrimEnd(s[..|s| - 1], cls) else s
  }

  /** What `lstrip` keeps is a suffix of its argument. */
  lemma {:induction false} TrimStartIsSuffix(s: string, cls: CharClass)
    ensures TrimStart(s, cls) == s[|s| - |TrimStart(s, cls)|..]
    decreases |s|
  {
    if s != [] && In(s[0], cls) {
      TrimStartIsSuffix(s[1..], cls);
    }
  }

  /** What `rstrip` keeps is a prefix of its argument. */
  lemma {:induction false} TrimEndIsPrefix(s: string, cls: CharClass)
    ensures TrimEnd(s, cls) == s[..|TrimEnd(s, cls)|]
    decreases |s|
  {
    if s != [] && In(s[|s| - 1], cls) {
      TrimEndIsPrefix(s[..|s| - 1], cls);
    }
  }

  /** `s.strip(chars)`: what is left once both runs are dropped. */
  function Strip(s: string, cls: CharClass): (r: string)
    ensures |r| <= |s|
    ensures r != [] ==> !In(r[0], cls) && !In(r[|r| - 1], cls)
  {
    TrimEndIsPrefix(TrimStart(s, cls), cls);
    TrimEnd(TrimStart(s, cls), cls)
  }

  /** The number of characters `s.strip(chars)` drops at the front. */
  function Lead(s: string, cls: CharClass): (n: nat)
    ensures n <= |s|
  {
    |s| - |TrimStart(s, cls)|
  }

  /** The stripped string is the slice of `s` that starts after the
      dropped prefix. */
  lemma StripIsSlice(s: string, cls: CharClass)
    ensures Lead(s, cls) + |Strip(s, cls)| <= |s|
    ensures Strip(s, cls) == s[Lead(s, cls)..Lead(s, cls) + |Strip(s, cls)|]
  {
    var front := TrimStart(s, cls);
    TrimStartIsSuffix(s, cls);
    TrimEndIsPrefix(front, cls);
    assert front == s[Lead(s, cls)..];
  }

  /** `lstrip` drops only characters of the class. */
  lemma {:induction false} TrimStartDropsOnlyClass(s: string, cls: CharClass)
    ensures forall i :: 0 <= i < |s| - |TrimStart(s, cls)| ==> In(s[i], cls)
    decreases |s|
  {
    if s != [] && In(s[0], cls) {
      var tail := s[1..];
      TrimStartDropsOnlyClass(tail, cls);
      forall i | 1 <= i < |s| - |TrimStart(s, cls)| ensures In(s[i], cls) {
        assert s[i] == tail[i - 1];
      }
    }
  }

  /** `rstrip` drops only characters of the class. */
  lemma {:induction false} TrimEndDropsOnlyClass(s: string, cls: CharClass)
    ensures forall i :: |TrimEnd(s, cls)| <= i < |s| ==> In(s[i], cls)
    decreases |s|
  {
    if s != [] && In(s[|s| - 1], cls) {
      var init := s[..|s| - 1];
      TrimEndDropsOnlyClass(init, cls);
      forall i | |TrimEnd(s, cls)| <= i < |s| - 1 ensures In(s[i], cls) {
        assert s[i] == init[i];
      }
    }
  }

  /** Only characters of the class are dropped, from either end. */
  lemma StripDropsOnlyClass(s: string, cls: CharClass)
    ensures forall k :: 0 <= k < Lead(s, cls) ==> In(s[k], cls)
    ensures forall k :: Lead(s, cls) + |Strip(s, cls)| <= k < |s| ==> In(s[k], cls)
  {
    var front := TrimStart(s, cls);
    var i, r := Lead(s, cls), Strip(s, cls);
    TrimStartDropsOnlyClass(s, cls);
    TrimEndDropsOnlyClass(front, cls);
    TrimStartIsSuffix(s, cls);
    forall k | i + |r| <= k < |s| ensures In(s[k], cls) {
      assert s[k] == front[k - i];
    }
  }

  /** Stripping leaves nothing more to strip. */
  lemma StripIdempotent(s: string, cls: CharClass)
    ensures Strip(Strip(s, cls), cls) == Strip(s, cls)
  {
    var r := Strip(s, cls);
    TrimStartNoop(r, cls);
    TrimEndNoop(r, cls);
  }

  lemma TrimStartNoop(s: string, cls: CharClass)
    requires s != [] ==> !In(s[0], cls)
    ensures TrimStart(s, cls) == s
  {
  }

  lemma TrimEndNoop(s: string, cls: CharClass)
    requires s != [] ==> !In(s[|s| - 1], cls)
    ensures TrimEnd(s, cls) == s
  {
  }
}
