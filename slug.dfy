/** The file name a topic is written under:
    `re.sub(r'[^a-z0-9]+', '-', t.lower()).strip('-') + ".html"`. */
module Slug {
  import opened PyText

  const Extension := ".html"

  /** Topics are modelled as ASCII text. */
  predicate IsAscii(s: string) {
    forall i :: 0 <= i < |s| ==> s[i] <= '\U{7F}'
  }

  /** `str.lower()` on one ASCII character. */
  function LowerChar(c: char): char {
    if 'A' <= c <= 'Z' then (c as int + 32) as char else c
  }

  /** `str.lower()` on ASCII text, character by character. */
  function Lower(s: string): (r: string)
    ensures |r| == |s|
  {
    if s == [] then [] else [LowerChar(s[0])] + Lower(s[1..])
  }

  predicate IsSlugChar(c: char) {
    IsWordChar(c) || c == '-'
  }

  ghost predicate NoDoubleDash(s: string) {
    forall i, j :: 0 <= i < j < |s| && j == i + 1 ==> !(s[i] == '-' && s[j] == '-')
  }

  /** The shape of the dash-separated text the substitution produces. */
  ghost predicate IsDashed(s: string) {
    (forall i :: 0 <= i < |s| ==> IsSlugChar(s[i])) && NoDoubleDash(s)
  }

  /** What a stem looks like: `[a-z0-9-]` only, no `--`, no dash at either end. */
  ghost predicate IsStem(s: string) {
    IsDashed(s) && (s != [] ==> s[0] != '-' && s[|s| - 1] != '-')
  }

  /** The letters and digits of `s`, in order. */
  function WordChars(s: string): (r: string)
    ensures |r| <= |s|
  {
    if s == [] then [] else (if IsWordChar(s[0]) then [s[0]] else []) + WordChars(s[1..])
  }

  /** `re.sub(r'[^a-z0-9]+', '-', s)`: every maximal run of characters
      outside `[a-z0-9]` becomes one dash, every other character is kept. */
  function Substitute(s: string): (r: string)
    ensures r == [] <==> s == []
    ensures r != [] && r[0] == '-' ==> !IsWordChar(s[0])
    decreases |s|
  {
    if s == [] then []
    else if IsWordChar(s[0]) then [s[0]] + Substitute(s[1..])
    else "-" + Substitute(TrimStart(s, NonWord))
  }

  /** A slug character put in front of dash-separated text keeps it
      dash-separated unless it makes a `--`. */
  lemma ConsDashed(c: char, rest: string)
    requires IsSlugChar(c) && IsDashed(rest)
    requires c == '-' && rest != [] ==> rest[0] != '-'
    ensures IsDashed([c] + rest)
  {
    var t := [c] + rest;
    forall i | 0 <= i < |t| ensures IsSlugChar(t[i]) {
      if i > 0 { assert t[i] == rest[i - 1]; }
    }
    forall i, j | 0 <= i < j < |t| && j == i + 1 ensures !(t[i] == '-' && t[j] == '-') {
      if i > 0 { assert t[i] == rest[i - 1] && t[j] == rest[j - 1]; }
    }
  }

  /** The substitution leaves only `[a-z0-9-]` and never two dashes in a row. */
  lemma {:induction false} SubstituteIsDashed(s: string)
    ensures IsDashed(Substitute(s))
    decreases |s|
  {
    if s != [] {
      if IsWordChar(s[0]) {
        SubstituteIsDashed(s[1..]);
        ConsDashed(s[0], Substitute(s[1..]));
      } else {
        var t := TrimStart(s, NonWord);
        SubstituteIsDashed(t);
        ConsDashed('-', Substitute(t));
      }
    }
  }

  /** The file name without its extension: `.strip('-')` of the substitution. */
  function Stem(topic: string): string {
    Strip(Substitute(Lower(topic)), Dash)
  }

  /** The expression at generate_and_deploy.py line 102. */
  function FileName(topic: string): (r: string)
    requires IsAscii(topic)
    ensures |r| <= |topic| + |Extension|
  {
    SubstituteNoLonger(Lower(topic));
    Stem(topic) + Extension
  }

  /** Each run the substitution replaces is at least one character long. */
  lemma {:induction false} SubstituteNoLonger(s: string)
    ensures |Substitute(s)| <= |s|
    decreases |s|
  {
    if s != [] {
      if IsWordChar(s[0]) {
        SubstituteNoLonger(s[1..]);
      } else {
        SubstituteNoLonger(TrimStart(s, NonWord));
      }
    }
  }

  /** The stem has only `[a-z0-9-]`, no `--` and no dash at either end. */
  lemma StemShape(topic: string)
    ensures IsStem(Stem(topic))
  {
    var sub := Substitute(Lower(topic));
    var stem, i := Strip(sub, Dash), Lead(sub, Dash);
    SubstituteIsDashed(Lower(topic));
    StripIsSlice(sub, Dash);
    SliceIsDashed(sub, i, i + |stem|);
    assert stem != [] ==> !In(stem[0], Dash) && !In(stem[|stem| - 1], Dash);
  }

  /** A slice of dash-separated text is dash-separated. */
  lemma SliceIsDashed(s: string, i: nat, j: nat)
    requires i <= j <= |s| && IsDashed(s)
    ensures IsDashed(s[i..j])
  {
    var t := s[i..j];
    forall k | 0 <= k < |t| ensures IsSlugChar(t[k]) {
      assert t[k] == s[i + k];
    }
    forall k, l | 0 <= k < l < |t| && l == k + 1 ensures !(t[k] == '-' && t[l] == '-') {
      assert t[k] == s[i + k] && t[l] == s[i + l];
    }
  }

  /** Every character of a file name is in `[a-z0-9.-]`; in particular a
      file name needs no escaping inside a URL or an XML element. */
  lemma FileNameChars(topic: string)
    requires IsAscii(topic)
    ensures forall i :: 0 <= i < |FileName(topic)| ==> IsSlugChar(FileName(topic)[i]) || FileName(topic)[i] == '.'
    ensures '<' !in FileName(topic)
  {
    StemShape(topic);
    NameChars(Stem(topic), Extension);
  }

  lemma NameChars(stem: string, ext: string)
    requires forall i :: 0 <= i < |stem| ==> IsSlugChar(stem[i])
    requires ext == Extension
    ensures forall i :: 0 <= i < |stem + ext| ==> IsSlugChar((stem + ext)[i]) || (stem + ext)[i] == '.'
    ensures '<' !in stem + ext
  {
    var f := stem + ext;
    forall i | 0 <= i < |f| ensures IsSlugChar(f[i]) || f[i] == '.' {
      if i < |stem| { assert f[i] == stem[i]; } else { assert f[i] == ext[i - |stem|]; }
    }
  }

  /** Dash-separated text is left unchanged by the substitution. */
  lemma {:induction false} SubstituteDashed(s: string)
    requires IsDashed(s)
    ensures Substitute(s) == s
    decreases |s|
  {
    if s != [] {
      var tail := s[1..];
      assert s == [s[0]] + tail;
      SliceIsDashed(s, 1, |s|);
      SubstituteDashed(tail);
      if !IsWordChar(s[0]) {
        assert s[0] == '-';
        assert tail != [] ==> IsWordChar(tail[0]) by {
          if tail != [] { assert tail[0] == s[1]; }
        }
        TrimStartNoop(tail, NonWord);
        assert TrimStart(s, NonWord) == TrimStart(tail, NonWord);
      }
    }
  }

  /** Lower-casing leaves dash-separated text unchanged. */
  lemma {:induction false} LowerDashed(s: string)
    requires IsDashed(s)
    ensures Lower(s) == s
    decreases |s|
  {
    if s != [] {
      SliceIsDashed(s, 1, |s|);
      LowerDashed(s[1..]);
      assert IsSlugChar(s[0]);
    }
  }

  /** Applying the slug to its own stem gives the same stem. */
  lemma StemIdempotent(topic: string)
    ensures Stem(Stem(topic)) == Stem(topic)
  {
    var s := Stem(topic);
    StemShape(topic);
    LowerDashed(s);
    SubstituteDashed(s);
    TrimStartNoop(s, Dash);
    TrimEndNoop(s, Dash);
  }

  lemma {:induction false} WordCharsAppend(a: string, b: string)
    ensures WordChars(a + b) == WordChars(a) + WordChars(b)
    decreases |a|
  {
    if a == [] {
      assert a + b == b;
    } else {
      var head := if IsWordChar(a[0]) then [a[0]] else [];
      assert (a + b)[0] == a[0] && (a + b)[1..] == a[1..] + b;
      calc {
        WordChars(a + b);
        head + WordChars(a[1..] + b);
        { WordCharsAppend(a[1..], b); }
        head + (WordChars(a[1..]) + WordChars(b));
        (head + WordChars(a[1..])) + WordChars(b);
      }
    }
  }

  /** Trimming characters that are not letters or digits loses none. */
  lemma {:induction false} WordCharsTrimStart(s: string, cls: CharClass)
    requires cls != Space
    ensures WordChars(TrimStart(s, cls)) == WordChars(s)
    decreases |s|
  {
    if s != [] && In(s[0], cls) {
      WordCharsTrimStart(s[1..], cls);
    }
  }

  lemma {:induction false} WordCharsTrimEnd(s: string, cls: CharClass)
    requires cls != Space
    ensures WordChars(TrimEnd(s, cls)) == WordChars(s)
    decreases |s|
  {
    if s != [] && In(s[|s| - 1], cls) {
      var init := s[..|s| - 1];
      WordCharsTrimEnd(init, cls);
      assert s == init + [s[|s| - 1]];
      WordCharsAppend(init, [s[|s| - 1]]);
    }
  }

  lemma {:induction false} WordCharsSubstitute(s: string)
    ensures WordChars(Substitute(s)) == WordChars(s)
    decreases |s|
  {
    if s != [] {
      if IsWordChar(s[0]) {
        WordCharsSubstitute(s[1..]);
      } else {
        var rest := TrimStart(s, NonWord);
        WordCharsSubstitute(rest);
        WordCharsTrimStart(s, NonWord);
        assert ("-" + Substitute(rest))[1..] == Substitute(rest);
      }
    }
  }

  /** Dropping the dashes from the stem leaves exactly the letters and digits
      of the lower-cased topic, in their original order: the slug loses no
      letter or digit and invents none. */
  lemma StemKeepsWordChars(topic: string)
    ensures WordChars(Stem(topic)) == WordChars(Lower(topic))
  {
    var sub := Substitute(Lower(topic));
    WordCharsSubstitute(Lower(topic));
    WordCharsTrimStart(sub, Dash);
    WordCharsTrimEnd(TrimStart(sub, Dash), Dash);
  }

  /** A run of letters and digits passes through the substitution unchanged. */
  lemma {:induction false} SubstituteWord(w: string, s: string)
    requires forall i :: 0 <= i < |w| ==> IsWordChar(w[i])
    ensures Substitute(w + s) == w + Substitute(s)
    decreases |w|
  {
    if w == [] {
      assert w + s == s;
    } else {
      assert (w + s)[0] == w[0] && (w + s)[1..] == w[1..] + s;
      SubstituteWord(w[1..], s);
      assert [w[0]] + (w[1..] + Substitute(s)) == w + Substitute(s);
    }
  }

  lemma AppendAssoc(a: string, b: string, c: string)
    ensures a + (b + c) == a + b + c
  {
  }

  /** A word, one space and more text starting with a word: the space becomes a dash. */
  lemma SubstituteWordSpace(w: string, s: string)
    requires forall i :: 0 <= i < |w| ==> IsWordChar(w[i])
    requires s != [] && IsWordChar(s[0])
    ensures Substitute(w + " " + s) == w + "-" + Substitute(s)
  {
    SubstituteWord(w, " " + s);
    SubstituteSpace(s);
    AppendAssoc(w, " ", s);
    AppendAssoc(w, "-", Substitute(s));
  }

  /** One space before a word becomes one dash. */
  lemma SubstituteSpace(s: string)
    requires s != [] && IsWordChar(s[0])
    ensures Substitute(" " + s) == "-" + Substitute(s)
  {
    var t := " " + s;
    assert t[0] == ' ' && t[1..] == s;
    TrimStartNoop(s, NonWord);
    assert TrimStart(t, NonWord) == s;
  }

  /** The words of `ws` separated by `sep`. */
  function Join(ws: seq<string>, sep: string): string {
    if |ws| <= 1 then (if ws == [] then "" else ws[0]) else ws[0] + sep + Join(ws[1..], sep)
  }

  predicate IsWord(w: string) {
    w != [] && forall i :: 0 <= i < |w| ==> IsWordChar(w[i])
  }

  lemma {:induction false} SubstituteJoin(ws: seq<string>)
    requires forall k :: 0 <= k < |ws| ==> IsWord(ws[k])
    ensures Substitute(Join(ws, " ")) == Join(ws, "-")
    decreases |ws|
  {
    if |ws| == 1 {
      SubstituteWord(ws[0], "");
      assert ws[0] + "" == ws[0];
    } else if |ws| > 1 {
      var rest, dashed := Join(ws[1..], " "), Join(ws[1..], "-");
      SubstituteJoin(ws[1..]);
      assert rest != [] && IsWordChar(rest[0]) by {
        if |ws| == 2 { assert rest == ws[1]; } else { assert rest[0] == ws[1][0]; }
      }
      SubstituteWordSpace(ws[0], rest);
      assert Join(ws, "-") == ws[0] + "-" + dashed;
      assert Join(ws, "-")[0] == ws[0][0];
    }
  }

  /** Words joined by a separator start with the first word's first
      character and end with the last word's last character. */
  lemma {:induction false} JoinEnds(ws: seq<string>, sep: string)
    requires ws != [] && forall k :: 0 <= k < |ws| ==> IsWord(ws[k])
    ensures |Join(ws, sep)| > 0 && |ws[0]| > 0 && |ws[|ws| - 1]| > 0
    ensures Join(ws, sep)[0] == ws[0][0]
    ensures Join(ws, sep)[|Join(ws, sep)| - 1] == ws[|ws| - 1][|ws[|ws| - 1]| - 1]
    decreases |ws|
  {
    if |ws| > 1 {
      JoinEnds(ws[1..], sep);
      var rest := Join(ws[1..], sep);
      assert Join(ws, sep) == ws[0] + sep + rest;
      assert Join(ws, sep)[|Join(ws, sep)| - 1] == rest[|rest| - 1];
    }
  }

  /** A topic whose lower-cased form is words separated by single spaces:
      its stem is the same words separated by single dashes. */
  lemma StemOfWords(topic: string, ws: seq<string>)
    requires forall k :: 0 <= k < |ws| ==> IsWord(ws[k])
    requires Lower(topic) == Join(ws, " ")
    ensures Stem(topic) == Join(ws, "-")
  {
    SubstituteJoin(ws);
    var stem := Join(ws, "-");
    if ws != [] {
      JoinEnds(ws, "-");
      assert IsWord(ws[0]) && IsWord(ws[|ws| - 1]);
    }
    TrimStartNoop(stem, Dash);
    TrimEndNoop(stem, Dash);
  }

  const ExampleTopic := "Top 5 tips to improve hotel WiFi speeds"
  const ExampleWords := ["top", "5", "tips", "to", "improve", "hotel", "wifi", "speeds"]

  lemma ExampleWordsAreWords()
    ensures forall k :: 0 <= k < |ExampleWords| ==> IsWord(ExampleWords[k])
  {
  }

  const ExampleStem := "top-5-tips-to-improve-hotel-wifi-speeds"
  const ExampleTopicWords := ["Top", "5", "tips", "to", "improve", "hotel", "WiFi", "speeds"]

  lemma {:induction false} LowerAppend(a: string, b: string)
    ensures Lower(a + b) == Lower(a) + Lower(b)
    decreases |a|
  {
    if a == [] {
      assert a + b == b;
    } else {
      assert (a + b)[0] == a[0] && (a + b)[1..] == a[1..] + b;
      LowerAppend(a[1..], b);
      assert [LowerChar(a[0])] + (Lower(a[1..]) + Lower(b)) == Lower(a) + Lower(b);
    }
  }

  /** Lower-casing words joined by spaces lower-cases each word. */
  lemma {:induction false} LowerJoin(ws: seq<string>, us: seq<string>)
    requires |ws| == |us|
    requires forall k :: 0 <= k < |ws| ==> Lower(ws[k]) == us[k]
    ensures Lower(Join(ws, " ")) == Join(us, " ")
    decreases |ws|
  {
    if |ws| > 1 {
      LowerJoin(ws[1..], us[1..]);
      LowerAppend(ws[0] + " ", Join(ws[1..], " "));
      LowerAppend(ws[0], " ");
    }
  }

  /** Joining with one more word appends a separator and that word. */
  lemma {:induction false} JoinSnoc(ws: seq<string>, w: string, sep: string)
    requires ws != []
    ensures Join(ws + [w], sep) == Join(ws, sep) + sep + w
    decreases |ws|
  {
    assert (ws + [w])[0] == ws[0] && (ws + [w])[1..] == ws[1..] + [w];
    if |ws| > 1 {
      JoinSnoc(ws[1..], w, sep);
    }
  }

  // The example topic and its stem, joined one word at a time. Each step
  // appends one word with `JoinSnoc`, so it compares strings only one word
  // longer than the step before: `ExampleSpaced4` .. `ExampleSpaced7` and
  // `ExampleTopicJoined` build "Top 5 tips to improve hotel WiFi speeds";
  // `ExampleDashed4` .. `ExampleDashed7` and `ExampleDashedWords` build its
  // stem. Comparing the whole strings in one step costs the verifier far more.

  lemma ExampleSpaced4()
    ensures Join(["Top", "5", "tips", "to"], " ") == "Top 5 tips to"
  {
  }

  lemma ExampleSpaced5()
    ensures Join(["Top", "5", "tips", "to", "improve"], " ") == "Top 5 tips to improve"
  {
    ExampleSpaced4();
    JoinSnoc(["Top", "5", "tips", "to"], "improve", " ");
    assert ["Top", "5", "tips", "to"] + ["improve"] == ["Top", "5", "tips", "to", "improve"];
  }

  lemma ExampleSpaced6()
    ensures Join(["Top", "5", "tips", "to", "improve", "hotel"], " ") == "Top 5 tips to improve hotel"
  {
    ExampleSpaced5();
    JoinSnoc(["Top", "5", "tips", "to", "improve"], "hotel", " ");
    assert ["Top", "5", "tips", "to", "improve"] + ["hotel"] == ["Top", "5", "tips", "to", "improve", "hotel"];
  }

  lemma ExampleSpaced7()
    ensures Join(["Top", "5", "tips", "to", "improve", "hotel", "WiFi"], " ") == "Top 5 tips to improve hotel WiFi"
  {
    ExampleSpaced6();
    JoinSnoc(["Top", "5", "tips", "to", "improve", "hotel"], "WiFi", " ");
    assert ["Top", "5", "tips", "to", "improve", "hotel"] + ["WiFi"] == ["Top", "5", "tips", "to", "improve", "hotel", "WiFi"];
  }

  lemma ExampleTopicJoined()
    ensures Join(ExampleTopicWords, " ") == ExampleTopic
  {
    ExampleSpaced7();
    JoinSnoc(["Top", "5", "tips", "to", "improve", "hotel", "WiFi"], "speeds", " ");
    assert ["Top", "5", "tips", "to", "improve", "hotel", "WiFi"] + ["speeds"] == ExampleTopicWords;
  }

  lemma ExampleDashed4()
    ensures Join(["top", "5", "tips", "to"], "-") == "top-5-tips-to"
  {
  }

  lemma ExampleDashed5()
    ensures Join(["top", "5", "tips", "to", "improve"], "-") == "top-5-tips-to-improve"
  {
    ExampleDashed4();
    JoinSnoc(["top", "5", "tips", "to"], "improve", "-");
    assert ["top", "5", "tips", "to"] + ["improve"] == ["top", "5", "tips", "to", "improve"];
  }

  lemma ExampleDashed6()
    ensures Join(["top", "5", "tips", "to", "improve", "hotel"], "-") == "top-5-tips-to-improve-hotel"
  {
    ExampleDashed5();
    JoinSnoc(["top", "5", "tips", "to", "improve"], "hotel", "-");
    assert ["top", "5", "tips", "to", "improve"] + ["hotel"] == ["top", "5", "tips", "to", "improve", "hotel"];
  }

  lemma ExampleDashed7()
    ensures Join(["top", "5", "tips", "to", "improve", "hotel", "wifi"], "-") == "top-5-tips-to-improve-hotel-wifi"
  {
    ExampleDashed6();
    JoinSnoc(["top", "5", "tips", "to", "improve", "hotel"], "wifi", "-");
    assert ["top", "5", "tips", "to", "improve", "hotel"] + ["wifi"] == ["top", "5", "tips", "to", "improve", "hotel", "wifi"];
  }

  lemma ExampleDashedWords()
    ensures Join(ExampleWords, "-") == ExampleStem
  {
    ExampleDashed7();
    JoinSnoc(["top", "5", "tips", "to", "improve", "hotel", "wifi"], "speeds", "-");
    assert ["top", "5", "tips", "to", "improve", "hotel", "wifi"] + ["speeds"] == ExampleWords;
  }

  /** A word of letters and digits is already lower case. */
  lemma LowerWord(w: string)
    requires forall i :: 0 <= i < |w| ==> IsWordChar(w[i])
    ensures Lower(w) == w
  {
    LowerDashed(w);
  }

  lemma ExampleWordsLower()
    ensures forall k :: 0 <= k < |ExampleTopicWords| ==> Lower(ExampleTopicWords[k]) == ExampleWords[k]
  {
    forall k | 0 <= k < |ExampleTopicWords| ensures Lower(ExampleTopicWords[k]) == ExampleWords[k] {
      var w := ExampleTopicWords[k];
      if k == 0 {
        assert w == "Top" && Lower("Top") == "top";
      } else if k == 6 {
        assert w == "WiFi" && Lower("WiFi") == "wifi";
      } else {
        assert w == ExampleWords[k];
        assert forall i :: 0 <= i < |w| ==> IsWordChar(w[i]);
        LowerWord(w);
      }
    }
  }

  lemma ExampleLowerWords()
    ensures Lower(ExampleTopic) == Join(ExampleWords, " ")
  {
    ExampleTopicJoined();
    ExampleWordsLower();
    LowerJoin(ExampleTopicWords, ExampleWords);
  }

  /** The stem of the example topic. */
  lemma ExampleTopicStem(topic: string)
    requires topic == ExampleTopic
    ensures Stem(topic) == ExampleStem
  {
    ExampleLowerWords();
    StemOfExampleWords(topic);
    ExampleDashedWords();
  }

  lemma StemOfExampleWords(topic: string)
    requires Lower(topic) == Join(ExampleWords, " ")
    ensures Stem(topic) == Join(ExampleWords, "-")
  {
    ExampleWordsAreWords();
    StemOfWords(topic, ExampleWords);
  }

  lemma ExampleTopicAscii()
    ensures IsAscii(ExampleTopic)
  {
  }

  lemma ExampleWithExtension()
    ensures ExampleStem + Extension == "top-5-tips-to-improve-hotel-wifi-speeds.html"
  {
  }

  /** The third topic of the script's list. */
  lemma FileNameExample(topic: string)
    requires topic == ExampleTopic
    ensures IsAscii(topic) && FileName(topic) == "top-5-tips-to-improve-hotel-wifi-speeds.html"
  {
    ExampleTopicAscii();
    ExampleTopicStem(topic);
    ExampleWithExtension();
  }
}
