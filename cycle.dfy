/** `Cycle`: the getters on the current chain at the moment one of them came back,
    and the position where it first appeared (Cycle.java:8-29). */
module Cycle {
  import opened Text
  import opened Getter

  datatype Cycle = Cycle(getters: seq<Getter>, idx: nat)

  function Header(idx: nat): string
  {
    "cycle starts at index: " + NatToString(idx) + "\n"
  }

  /** The line for the i-th getter: `i: declaringClass::name`. */
  function EntryLine(i: nat, g: Getter): string
  {
    NatToString(i) + ": " + DeclaringClass(g) + "::" + Name(g) + "\n"
  }

  /** The lines for a prefix of the chain, numbered from 0. */
  function Lines(gs: seq<Getter>): string
  {
    if gs == [] then "" else Lines(gs[..|gs| - 1]) + EntryLine(|gs| - 1, gs[|gs| - 1])
  }

  /** The text `toString()` builds. */
  function Report(c: Cycle): string
  {
    Header(c.idx) + Lines(c.getters)
  }

  lemma LinesStep(gs: seq<Getter>, i: nat)
    requires i < |gs|
    ensures Lines(gs[..i + 1]) == Lines(gs[..i]) + EntryLine(i, gs[i])
  {
    assert gs[..i + 1][..i] == gs[..i];
  }

  lemma AppendAssociative(a: string, b: string, e: string)
    ensures (a + b) + e == a + (b + e)
  {
  }

  /** `toString()`: appends the header and then one numbered line per getter. */
  method ToString(c: Cycle) returns (s: string)
    ensures s == Report(c)
  {
    s := Header(c.idx);
    var i := 0;
    while i < |c.getters|
      invariant 0 <= i <= |c.getters|
      invariant s == Header(c.idx) + Lines(c.getters[..i])
    {
      var line := EntryLine(i, c.getters[i]);
      LinesStep(c.getters, i);
      AppendAssociative(Header(c.idx), Lines(c.getters[..i]), line);
      s := s + line;
      i := i + 1;
    }
    assert c.getters[..i] == c.getters;
  }

  function NewlineCount(s: string): nat
  {
    if s == [] then 0 else NewlineCount(s[..|s| - 1]) + (if s[|s| - 1] == '\n' then 1 else 0)
  }

  lemma {:induction false} NewlineCountAppend(a: string, b: string)
    ensures NewlineCount(a + b) == NewlineCount(a) + NewlineCount(b)
    decreases |b|
  {
    if b == [] {
      assert a + b == a;
    } else {
      var b' := b[..|b| - 1];
      assert (a + b)[..|a + b| - 1] == a + b';
      NewlineCountAppend(a, b');
    }
  }

  lemma {:induction false} NewlineFreeCount(s: string)
    requires NoNewline(s)
    ensures NewlineCount(s) == 0
    decreases |s|
  {
    if s != [] {
      NewlineFreeCount(s[..|s| - 1]);
    }
  }

  lemma DigitsHaveNoNewline(n: nat)
    ensures NoNewline(NatToString(n))
  {
  }

  lemma {:induction false} EntryLineHasOneNewline(i: nat, g: Getter)
    requires NoNewline(DeclaringClass(g)) && NoNewline(Name(g))
    ensures NewlineCount(EntryLine(i, g)) == 1
  {
    var p := NatToString(i) + ": " + DeclaringClass(g) + "::" + Name(g);
    assert EntryLine(i, g) == p + "\n";
    DigitsHaveNoNewline(i);
    assert NoNewline(p);
    NewlineFreeCount(p);
    NewlineCountAppend(p, "\n");
  }

  /** The report has one line for the header and one per getter of the chain,
      when no class or member name contains a line break. */
  lemma {:induction false} ReportLineCount(c: Cycle)
    requires forall g :: g in c.getters ==> NoNewline(DeclaringClass(g)) && NoNewline(Name(g))
    ensures NewlineCount(Report(c)) == |c.getters| + 1
  {
    LinesCount(c.getters);
    var h := "cycle starts at index: " + NatToString(c.idx);
    assert Header(c.idx) == h + "\n";
    DigitsHaveNoNewline(c.idx);
    assert NoNewline(h);
    NewlineFreeCount(h);
    NewlineCountAppend(h, "\n");
    NewlineCountAppend(Header(c.idx), Lines(c.getters));
  }

  lemma {:induction false} LinesCount(gs: seq<Getter>)
    requires forall g :: g in gs ==> NoNewline(DeclaringClass(g)) && NoNewline(Name(g))
    ensures NewlineCount(Lines(gs)) == |gs|
    decreases |gs|
  {
    if gs != [] {
      var init := gs[..|gs| - 1];
      assert forall g :: g in init ==> g in gs;
      LinesCount(init);
      EntryLineHasOneNewline(|gs| - 1, gs[|gs| - 1]);
      NewlineCountAppend(Lines(init), EntryLine(|gs| - 1, gs[|gs| - 1]));
    }
  }

  /** The report begins with the header naming the start index. */
  lemma ReportStartsWithHeader(c: Cycle)
    ensures Report(c)[..|Header(c.idx)|] == Header(c.idx)
  {
  }
}
