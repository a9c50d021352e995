/** The name of the file "download as .txt" offers: the selected option's
    text with every character other than an ASCII letter or digit turned into
    `_`, lower-cased, plus `.txt`; `documento.txt` when nothing is selected. */
module Export {
  import opened Wrappers
  import StatusBar

  /** HTML's ASCII white space: tab, line feed, form feed, carriage return
      and space. */
  predicate AsciiSpace(c: char)
  {
    c == '\t' || c == '\n' || c == '\U{000C}' || c == '\r' || c == ' '
  }

  /** The rest of an option's caption: `started` says whether a character has
      been kept already, `gap` whether white space has been met since. */
  function Squash(s: string, started: bool, gap: bool): (r: string)
    ensures SpacesOnly(r) && NoDoubleSpace(r)
    ensures |r| > 0 ==> r[|r| - 1] != ' '
    ensures |r| > 0 && r[0] == ' ' ==> started || gap
  {
    if |s| == 0 then ""
    else if AsciiSpace(s[0]) then Squash(s[1..], started, started)
    else
      (if gap then " " else "") + ([s[0]] + Squash(s[1..], true, false))
  }

  /** The `text` of an option element: its caption with ASCII white space
      stripped from both ends and every inner run of it collapsed to one
      space. */
  function OptionText(caption: string): (r: string)
    ensures r == Unwords(Words(caption))
    ensures Tidy(r)
  {
    SquashIsWords(caption, false, false);
    Squash(caption, false, false)
  }

  /** The caption cut at every ASCII white-space character: the first
      piece is empty exactly when the caption is empty or starts with
      white space, and no piece holds white space. */
  function SplitAscii(s: string): (r: seq<string>)
    ensures |r| > 0
    ensures r[0] == "" <==> |s| == 0 || AsciiSpace(s[0])
    ensures forall i, j :: 0 <= i < |r| && 0 <= j < |r[i]| ==> !AsciiSpace(r[i][j])
  {
    if |s| == 0 then [""]
    else if AsciiSpace(s[0]) then [""] + SplitAscii(s[1..])
    else
      var t := SplitAscii(s[1..]);
      [[s[0]] + t[0]] + t[1..]
  }

  /** The words of a caption: its maximal runs of characters other than
      ASCII white space, in order. */
  function Words(s: string): seq<string>
  {
    StatusBar.NonEmpty(SplitAscii(s))
  }

  /** Words joined by single spaces. */
  function Unwords(ws: seq<string>): string
  {
    if |ws| == 0 then "" else if |ws| == 1 then ws[0] else ws[0] + " " + Unwords(ws[1..])
  }

  lemma UnwordsCons(w: string, ws: seq<string>)
    ensures Unwords([w] + ws) == w + (if |ws| == 0 then "" else " " + Unwords(ws))
  {
    assert ([w] + ws)[1..] == ws;
  }

  /** A character put before the first word stays in that word. */
  lemma UnwordsFirst(c: char, w: string, ws: seq<string>)
    ensures Unwords([[c] + w] + ws) == [c] + Unwords([w] + ws)
  {
    UnwordsCons([c] + w, ws);
    UnwordsCons(w, ws);
  }

  lemma NonEmptyDrop(ls: seq<string>)
    ensures StatusBar.NonEmpty([""] + ls) == StatusBar.NonEmpty(ls)
  {
    assert ([""] + ls)[1..] == ls;
  }

  lemma NonEmptyKeep(x: string, ls: seq<string>)
    requires x != ""
    ensures StatusBar.NonEmpty([x] + ls) == [x] + StatusBar.NonEmpty(ls)
  {
    assert ([x] + ls)[1..] == ls;
  }

  /** White space in front of the caption adds no word. */
  lemma WordsSpace(s: string)
    requires |s| > 0 && AsciiSpace(s[0])
    ensures Words(s) == Words(s[1..])
  {
    assert SplitAscii(s) == [""] + SplitAscii(s[1..]);
    NonEmptyDrop(SplitAscii(s[1..]));
  }

  /** A word character in front of the caption starts its first word, or
      joins the first word of the rest when no white space follows it. */
  lemma WordsChar(s: string)
    requires |s| > 0 && !AsciiSpace(s[0])
    ensures |Words(s)| > 0
    ensures Unwords(Words(s))
            == [s[0]] + if |Words(s[1..])| == 0 then ""
                        else (if AsciiSpace(s[1]) then " " else "") + Unwords(Words(s[1..]))
  {
    var t := SplitAscii(s[1..]);
    assert t == [t[0]] + t[1..];
    assert SplitAscii(s) == [[s[0]] + t[0]] + t[1..];
    NonEmptyKeep([s[0]] + t[0], t[1..]);
    if t[0] == "" {
      NonEmptyDrop(t[1..]);
      UnwordsCons([s[0]], Words(s[1..]));
    } else {
      NonEmptyKeep(t[0], t[1..]);
      UnwordsFirst(s[0], t[0], StatusBar.NonEmpty(t[1..]));
    }
  }

  /** What `Squash` leaves of `s`: its words joined by single spaces, with
      one space in front when the caller has a gap pending (`gap`, or
      `started` once white space has been met). */
  lemma {:induction false} SquashIsWords(s: string, started: bool, gap: bool)
    ensures Squash(s, started, gap)
            == if |Words(s)| == 0 then ""
               else (if (if |s| > 0 && AsciiSpace(s[0]) then started else gap) then " " else "")
                    + Unwords(Words(s))
    decreases |s|
  {
    if |s| > 0 {
      if AsciiSpace(s[0]) {
        SquashIsWords(s[1..], started, started);
        WordsSpace(s);
      } else {
        SquashIsWords(s[1..], true, false);
        WordsChar(s);
      }
    }
  }

  /** The only white space left is the plain space. */
  predicate SpacesOnly(s: string)
  {
    forall i :: 0 <= i < |s| ==> AsciiSpace(s[i]) ==> s[i] == ' '
  }

  predicate NoDoubleSpace(s: string)
  {
    forall i :: 0 <= i < |s| - 1 ==> !(s[i] == ' ' && s[i + 1] == ' ')
  }

  /** What an option's `text` looks like: single plain spaces between
      words and none at the ends. */
  predicate Tidy(s: string)
  {
    SpacesOnly(s) && NoDoubleSpace(s) && (|s| > 0 ==> s[0] != ' ' && s[|s| - 1] != ' ')
  }

  /** A tidy caption is its own text. */
  lemma {:induction false} SquashKeepsTidy(s: string, started: bool)
    requires SpacesOnly(s) && NoDoubleSpace(s) && (|s| > 0 ==> s[|s| - 1] != ' ')
    requires |s| > 0 && s[0] == ' ' ==> started
    ensures Squash(s, started, false) == s
  {
    if |s| > 0 {
      if s[0] == ' ' {
        assert s[1] != ' ' && !AsciiSpace(s[1]);
        SquashKeepsTidy(s[2..], true);
        assert s == " " + ([s[1]] + s[2..]);
      } else {
        SquashKeepsTidy(s[1..], true);
        assert s == [s[0]] + s[1..];
      }
    }
  }

  lemma TidyIsOwnText(s: string)
    requires Tidy(s)
    ensures OptionText(s) == s
  {
    SquashKeepsTidy(s, false);
  }

  /** Reading an option's text twice gives the same text. */
  lemma OptionTextIdempotent(caption: string)
    ensures OptionText(OptionText(caption)) == OptionText(caption)
  {
    TidyIsOwnText(OptionText(caption));
  }

  /** The characters `/[^a-z0-9]/gi` does not match. Under the `i` flag a
      character is kept when its canonical (upper-case) form is a canonical
      member of the class; since canonicalisation never maps a non-ASCII
      character onto an ASCII one, these are the ASCII letters of either
      case and the digits. */
  predicate Kept(c: char)
  {
    ('a' <= c <= 'z') || ('A' <= c <= 'Z') || ('0' <= c <= '9')
  }

  /** The alphabet of a sanitised title. */
  predicate FileChar(c: char)
  {
    ('a' <= c <= 'z') || ('0' <= c <= '9') || c == '_'
  }

  /** `replace(/[^a-z0-9]/gi, '_')`: every character not kept becomes `_`. */
  function ReplaceOthers(t: string): (r: string)
    ensures |r| == |t|
    ensures forall i :: 0 <= i < |t| ==> (Kept(t[i]) ==> r[i] == t[i]) && (!Kept(t[i]) ==> r[i] == '_')
  {
    seq(|t|, i requires 0 <= i < |t| => if Kept(t[i]) then t[i] else '_')
  }

  /** Lower-casing an ASCII character; every other character is left alone,
      and none reaches this point in the export path. */
  function LowerAscii(c: char): (r: char)
    ensures 'A' <= c <= 'Z' ==> 'a' <= r <= 'z'
    ensures !('A' <= c <= 'Z') ==> r == c
  {
    if 'A' <= c <= 'Z' then (c as int + 32) as char else c
  }

  /** `toLowerCase` on text made of ASCII letters, digits and `_`. */
  function LowerCase(u: string): (r: string)
    ensures |r| == |u|
    ensures forall i :: 0 <= i < |u| ==> r[i] == LowerAscii(u[i])
  {
    seq(|u|, i requires 0 <= i < |u| => LowerAscii(u[i]))
  }

  /** The sanitised title: as long as the selected text, made of
      `[a-z0-9_]` only; a letter or digit stays in its place (lower-cased)
      and anything else becomes `_`. */
  function Sanitize(t: string): (r: string)
    ensures |r| == |t|
    ensures forall i :: 0 <= i < |r| ==> FileChar(r[i])
    ensures forall i :: 0 <= i < |t| ==> (Kept(t[i]) ==> r[i] == LowerAscii(t[i])) && (!Kept(t[i]) ==> r[i] == '_')
  {
    LowerCase(ReplaceOthers(t))
  }

  /** Sanitising leaves exactly the texts made of `[a-z0-9_]` unchanged. */
  lemma SanitizeFixedIff(t: string)
    ensures Sanitize(t) == t <==> forall i :: 0 <= i < |t| ==> FileChar(t[i])
  {
    if forall i :: 0 <= i < |t| ==> FileChar(t[i]) {
      assert forall i :: 0 <= i < |t| ==> Sanitize(t)[i] == t[i];
    }
  }

  /** Sanitising a sanitised title changes nothing. */
  lemma SanitizeIdempotent(t: string)
    ensures Sanitize(Sanitize(t)) == Sanitize(t)
  {
    SanitizeFixedIff(Sanitize(t));
  }

  const DefaultBase: string := "documento"
  const Extension: string := ".txt"

  /** The download name, given the caption of the selected option (`None`
      when no option is selected): the sanitised option text, or
      `documento`, followed by `.txt`. */
  function FileName(selected: Option<string>): (r: string)
    ensures |r| >= 4 && r[|r| - 4..] == ".txt"
    ensures selected.None? ==> r == "documento.txt"
    ensures selected.Some? ==> r[..|r| - 4] == Sanitize(OptionText(selected.value))
    ensures forall i :: 0 <= i < |r| - 4 ==> FileChar(r[i])
  {
    var base := if selected.Some? then Sanitize(OptionText(selected.value)) else DefaultBase;
    assert (base + Extension)[..|base|] == base;
    base + Extension
  }

  /** The base of a download name survives sanitising unchanged, so
      exporting under a name already exported gives the same name. */
  lemma FileNameStable(selected: Option<string>)
    ensures FileName(Some(FileName(selected)[..|FileName(selected)| - 4])) == FileName(selected)
  {
    var base := FileName(selected)[..|FileName(selected)| - 4];
    assert forall i :: 0 <= i < |base| ==> FileChar(base[i]);
    assert Tidy(base);
    TidyIsOwnText(base);
    SanitizeFixedIff(base);
    assert FileName(selected) == base + ".txt";
  }
}
