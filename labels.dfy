/**
 * `short_label` (backend/src/state.rs): the human label given to a node
 * when it is first discovered. The text after the last `::` is split on
 * `_`, each word gets an upper-case first character and the words are
 * joined with single spaces.
 */
module Labels {
  import opened Text

  /** Upper-casing of one character, on ASCII letters. */
  function Upper(c: char): (u: char)
    ensures 'a' <= c <= 'z' ==> u as int == c as int - 32
    ensures !('a' <= c <= 'z') ==> u == c
  {
    if 'a' <= c <= 'z' then (c as int - 32) as char else c
  }

  /** The first character upper-cased, the rest kept; an empty word stays empty. */
  function Capitalize(w: string): string
  {
    if |w| == 0 then "" else [Upper(w[0])] + w[1..]
  }

  /** Every word capitalised, in order. */
  function CapitalizeAll(ws: seq<string>): (r: seq<string>)
    ensures |r| == |ws|
    ensures forall i :: 0 <= i < |ws| ==> r[i] == Capitalize(ws[i])
  {
    seq(|ws|, i requires 0 <= i < |ws| => Capitalize(ws[i]))
  }

  lemma CapitalizeAllCons(w: string, ws: seq<string>)
    ensures CapitalizeAll([w] + ws) == [Capitalize(w)] + CapitalizeAll(ws)
  {
    var l, r := CapitalizeAll([w] + ws), [Capitalize(w)] + CapitalizeAll(ws);
    forall i | 0 <= i < |l| ensures l[i] == r[i] {
      if i > 0 { assert ([w] + ws)[i] == ws[i - 1]; }
    }
  }

  /** `name.split("::").last()`: the text after the last `::` matched left to right. */
  function LastSegment(name: string): string
  {
    var parts := Split(name, "::");
    parts[|parts| - 1]
  }

  /**
   * `short_label`, written as the source's split/map/join chain; it agrees
   * with the character-by-character definition `Relabel` of the segment
   * after the last `::`.
   */
  function ShortLabel(name: string): (r: string)
    ensures r == Relabel(LastSegment(name), true)
  {
    WordsRelabel(LastSegment(name));
    Join(CapitalizeAll(Split(LastSegment(name), "_")), " ")
  }

  /**
   * A character-by-character reference definition of the label of one
   * segment: every `_` becomes a space, and the character that starts a
   * word (the first one, or one right after a `_`) is upper-cased.
   */
  function Relabel(s: string, atStart: bool): (r: string)
    ensures |r| == |s|
  {
    if |s| == 0 then ""
    else
      var head := if s[0] == '_' then ' ' else if atStart then Upper(s[0]) else s[0];
      [head] + Relabel(s[1..], s[0] == '_')
  }

  /** A word starts at `i`: at the front when `atStart`, or right after a `_`. */
  predicate WordStart(s: string, i: nat, atStart: bool)
    requires i < |s|
  {
    if i == 0 then atStart else s[i - 1] == '_'
  }

  /** What `Relabel` does to each character. */
  lemma {:induction false} RelabelAt(s: string, atStart: bool, i: nat)
    requires i < |s|
    ensures Relabel(s, atStart)[i] ==
      if s[i] == '_' then ' ' else if WordStart(s, i, atStart) then Upper(s[i]) else s[i]
    decreases i
  {
    if i > 0 {
      RelabelAt(s[1..], s[0] == '_', i - 1);
      assert s[1..][i - 1] == s[i];
      assert i - 1 > 0 ==> s[1..][i - 2] == s[i - 1];
    }
  }

  /** Both halves of the induction behind `ShortLabel`'s contract. */
  lemma {:induction false} WordsRelabel(t: string)
    ensures Join(CapitalizeAll(Split(t, "_")), " ") == Relabel(t, true)
    ensures var ws := Split(t, "_"); Join([ws[0]] + CapitalizeAll(ws[1..]), " ") == Relabel(t, false)
    decreases |t|
  {
    var ws := Split(t, "_");
    if |t| == 0 {
      assert ws == [""];
      assert CapitalizeAll(ws) == [""];
      assert [ws[0]] + CapitalizeAll(ws[1..]) == [""];
    } else {
      WordsRelabel(t[1..]);
      if t[0] == '_' {
        UnderscoreStep(t);
      } else {
        LetterStep(t);
      }
    }
  }

  /** The step of `WordsRelabel` for a text that starts with `_`. */
  lemma UnderscoreStep(t: string)
    requires |t| > 0 && t[0] == '_'
    requires Join(CapitalizeAll(Split(t[1..], "_")), " ") == Relabel(t[1..], true)
    ensures Join(CapitalizeAll(Split(t, "_")), " ") == Relabel(t, true)
    ensures var ws := Split(t, "_"); Join([ws[0]] + CapitalizeAll(ws[1..]), " ") == Relabel(t, false)
  {
    var ws, rest := Split(t, "_"), Split(t[1..], "_");
    assert t[..1] == "_";
    SplitAtSep(t, "_");
    CapitalizeAllCons("", rest);
    assert ws[1..] == rest;
    JoinCons("", CapitalizeAll(rest), " ");
  }

  /** The step of `WordsRelabel` for a text that starts with another character. */
  lemma LetterStep(t: string)
    requires |t| > 0 && t[0] != '_'
    requires var rest := Split(t[1..], "_"); Join([rest[0]] + CapitalizeAll(rest[1..]), " ") == Relabel(t[1..], false)
    ensures Join(CapitalizeAll(Split(t, "_")), " ") == Relabel(t, true)
    ensures var ws := Split(t, "_"); Join([ws[0]] + CapitalizeAll(ws[1..]), " ") == Relabel(t, false)
  {
    var ws, rest := Split(t, "_"), Split(t[1..], "_");
    var tail := Relabel(t[1..], false);
    assert Relabel(t, true) == [Upper(t[0])] + tail;
    assert Relabel(t, false) == [t[0]] + tail;
    assert t[..1] != "_";
    var head := [t[0]] + rest[0];
    SplitAtOther(t, "_");
    assert ws[1..] == rest[1..];
    var caps := CapitalizeAll(rest[1..]);
    assert Capitalize(head) == [Upper(t[0])] + rest[0];
    CapitalizeAllCons(head, rest[1..]);
    JoinPrepend(Upper(t[0]), rest[0], caps, " ");
    JoinPrepend(t[0], rest[0], caps, " ");
  }

  /**
   * The segment `short_label` keeps: it holds no `::`, and either it is the
   * whole name or the name is some text, then `::`, then the segment.
   */
  lemma LastSegmentShape(name: string)
    ensures !Contains(LastSegment(name), "::")
    ensures LastSegment(name) == name ||
            exists p :: name == p + "::" + LastSegment(name)
  {
    var parts := Split(name, "::");
    SplitSegmentsFree(name, "::");
    JoinSplit(name, "::");
    if |parts| >= 2 {
      JoinSnoc(parts, "::");
    }
  }

  /** A label never holds an underscore; its length is that of the kept segment. */
  lemma ShortLabelNoUnderscore(name: string)
    ensures |ShortLabel(name)| == |LastSegment(name)|
    ensures forall i :: 0 <= i < |ShortLabel(name)| ==> ShortLabel(name)[i] != '_'
  {
    var seg := LastSegment(name);
    var r := Relabel(seg, true);
    forall i | 0 <= i < |r| ensures r[i] != '_' {
      RelabelAt(seg, true, i);
    }
  }
}
