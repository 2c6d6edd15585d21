/**
 How mmio_dump arranges text on lines, whatever its fields say: a label, up to four fields and a
 newline.
 */
module DumpLayout {
  import opened CText

  function LineCount(n: nat): nat {
    (n + 3) / 4
  }

  /** One past the last field of line k when there are n fields. */
  function LineEnd(n: nat, k: nat): (end: nat)
    ensures end <= n
  {
    if 4 * (k + 1) <= n then 4 * (k + 1) else n
  }

  /** A label for every line and the fields in order. */
  datatype Sheet = Sheet(labels: seq<string>, fields: seq<string>) {
    predicate Valid() {
      |labels| == LineCount(|fields|)
    }

    function Fields(j: nat, end: nat): string
      requires end <= |fields|
      decreases end - j
    {
      if j >= end then "" else fields[j] + Fields(j + 1, end)
    }

    /** Line k without its newline. */
    function Line(k: nat): string
      requires Valid() && k < |labels|
    {
      labels[k] + Fields(4 * k, LineEnd(|fields|, k))
    }

    function LinesFrom(k: nat): string
      requires Valid()
      decreases |labels| - k
    {
      if k >= |labels| then "" else Line(k) + "\n" + LinesFrom(k + 1)
    }

    function Text(): string
      requires Valid()
    {
      LinesFrom(0)
    }

    /** The text from field j of line k on. */
    function Tail(j: nat, k: nat): string
      requires Valid()
    {
      Fields(j, LineEnd(|fields|, k)) + ("\n" + LinesFrom(k + 1))
    }

    /** What is still to be printed once j fields are out. */
    function Rest(j: nat): string
      requires Valid()
    {
      if j % 4 == 0 then LinesFrom(j / 4) else Tail(j, j / 4)
    }

    lemma LineUnfolds(k: nat)
      requires Valid() && k < |labels|
      ensures LinesFrom(k) == labels[k] + Tail(4 * k, k)
    {
    }

    lemma TextEmpty()
      requires Valid() && PlainParts()
      ensures Text() == "" <==> fields == []
    {
      if labels != [] {
        TextStarts();
        assert Text()[0] == labels[0][0];
      }
    }

    lemma TextStarts()
      requires Valid() && labels != []
      ensures Text() == labels[0] + Tail(0, 0)
    {
      LineUnfolds(0);
    }

    lemma TailUnfolds(j: nat, k: nat)
      requires Valid() && j < LineEnd(|fields|, k)
      ensures Tail(j, k) == fields[j] + Tail(j + 1, k)
    {
    }

    /** One turn of the loop prints a label at the start of a line, a field, and a newline at its end. */
    lemma RestStep(j: nat)
      requires Valid() && j < |fields|
      ensures j / 4 < |labels|
      ensures Rest(j) == (if j % 4 == 0 then labels[j / 4] else "")
                         + (fields[j] + ((if (j + 1) % 4 == 0 then "\n" else "") + Rest(j + 1)))
    {
      var k := j / 4;
      if j % 4 == 0 { LineUnfolds(k); }
      TailUnfolds(j, k);
      assert Rest(j) == (if j % 4 == 0 then labels[k] else "") + Tail(j, k);
      if (j + 1) % 4 == 0 {
        assert Fields(j + 1, j + 1) == "" && (j + 1) / 4 == k + 1;
      } else {
        assert "" + Rest(j + 1) == Tail(j + 1, k);
      }
    }

    lemma RestStart()
      requires Valid()
      ensures "" + Rest(0) == Text()
    {
      assert "" + LinesFrom(0) == LinesFrom(0);
    }

    lemma RestEnd()
      requires Valid()
      ensures Rest(|fields|) == if |fields| % 4 == 0 then "" else "\n"
    {
    }

    predicate PlainParts() {
      && (forall k :: 0 <= k < |labels| ==> Plain(labels[k]) && labels[k] != "")
      && (forall j :: 0 <= j < |fields| ==> Plain(fields[j]))
    }

    lemma {:induction false} FieldsPlain(j: nat, end: nat)
      requires PlainParts() && end <= |fields|
      ensures Plain(Fields(j, end))
      decreases end - j
    {
      if j < end { FieldsPlain(j + 1, end); }
    }

    function LineTexts(k: nat): (lines: seq<string>)
      requires Valid() && k <= |labels|
      ensures |lines| == |labels| - k
      ensures forall i :: k <= i < |labels| ==> lines[i - k] == Line(i)
      decreases |labels| - k
    {
      if k == |labels| then [] else [Line(k)] + LineTexts(k + 1)
    }

    lemma {:induction false} LinesOfRest(k: nat)
      requires Valid() && PlainParts() && k <= |labels|
      ensures Lines(LinesFrom(k)) == Some(LineTexts(k))
      decreases |labels| - k
    {
      if k < |labels| {
        LinePlain(k);
        LinesOfRest(k + 1);
        LinesCons(Line(k), LinesFrom(k + 1), LineTexts(k + 1));
      }
    }

    lemma LinePlain(k: nat)
      requires Valid() && PlainParts() && k < |labels|
      ensures Plain(Line(k)) && Line(k) != ""
    {
      FieldsPlain(4 * k, LineEnd(|fields|, k));
      assert Line(k)[0] == labels[k][0];
    }

    /** The text has exactly the lines of the sheet, none of them blank, each ended by one newline;
        four fields stand on every line but perhaps the last. */
    lemma TextLines()
      requires Valid() && PlainParts()
      ensures Lines(Text()).Some?
      ensures var lines := Lines(Text()).value;
              && |lines| == |labels|
              && forall k :: 0 <= k < |lines| ==>
                   lines[k] == Line(k) && lines[k] != ""
                   && 0 < LineEnd(|fields|, k) - 4 * k <= 4
                   && (k + 1 < |lines| ==> LineEnd(|fields|, k) == 4 * (k + 1))
      ensures fields == [] <==> Text() == ""
    {
      hide Sheet.Line, Lines, Sheet.LinesFrom;
      LinesOfRest(0);
      TextEmpty();
      forall k | 0 <= k < |labels|
        ensures Lines(Text()).value[k] == Line(k) && Line(k) != "" && 0 < LineEnd(|fields|, k) - 4 * k <= 4
        ensures k + 1 < |labels| ==> LineEnd(|fields|, k) == 4 * (k + 1)
      {
        assert Lines(Text()).value == LineTexts(0);
        assert LineTexts(0)[k - 0] == Line(k);
        LinePlain(k);
      }
    }
  }

  predicate Plain(t: string) {
    forall i :: 0 <= i < |t| ==> t[i] != '\n'
  }

  function LineBreak(t: string, i: nat): (j: nat)
    requires i <= |t|
    ensures i <= j <= |t|
    ensures forall k :: i <= k < j ==> t[k] != '\n'
    ensures j < |t| ==> t[j] == '\n'
    decreases |t| - i
  {
    if i < |t| && t[i] != '\n' then LineBreak(t, i + 1) else i
  }

  /** The lines of a text whose every line is ended by a newline; None for any other text. */
  function Lines(t: string): Option<seq<string>>
    decreases |t|
  {
    if t == "" then Some([])
    else
      var j := LineBreak(t, 0);
      if j == |t| then None
      else
        var rest := Lines(t[j + 1..]);
        if rest.None? then None else Some([t[..j]] + rest.value)
  }

  lemma LinesCons(line: string, rest: string, lines: seq<string>)
    requires Plain(line) && Lines(rest) == Some(lines)
    ensures Lines(line + "\n" + rest) == Some([line] + lines)
  {
    var t := line + "\n" + rest;
    assert t[|line|] == '\n' && LineBreak(t, 0) == |line|;
    assert t[..|line|] == line && t[|line| + 1..] == rest;
  }
}
