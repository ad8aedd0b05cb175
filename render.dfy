/** How the digest turns the rows of the table into the text of one mail. */
module Render {
  import opened Types

  /** The text block for one row: the anonymous form when the stored name is
      empty, the named form otherwise. A block opens with "Anonymous" or with
      the stored name, and closes with the blank line that separates it from
      the next block. */
  function Block(e: Entry): (b: string)
    ensures |b| >= 2 && b[|b| - 2..] == "\n\n"
    ensures e.name == "" ==> |b| > 9 && b[..9] == "Anonymous"
    ensures e.name != "" ==> |b| > |e.name| && b[..|e.name|] == e.name
  {
    if e.name == "" then
      "Anonymous asked " + e.ask + "\nat " + e.created + "\n\n"
    else
      e.name + " asked " + e.ask + "\nat " + e.created + "\n\n"
  }

  /** Who a block names, decided by the submission's anonymity flag rather
      than by the stored name. */
  function Speaker(e: Entry): (s: string) {
    if e.anon then "Anonymous" else e.name
  }

  /** The block as the submission describes it: its speaker, the message and
      the time it was stored. */
  function SpeakerBlock(e: Entry): (b: string) {
    Speaker(e) + " asked " + e.ask + "\nat " + e.created + "\n\n"
  }

  /** On a row the intake wrote, rendering by the empty name is rendering by
      the anonymity flag. */
  lemma BlockBySubmitter(e: Entry)
    requires e.WellFormed()
    ensures Block(e) == SpeakerBlock(e)
  {
  }

  /** The concatenation, in order, of `f` applied to every element. */
  function ConcatMap<T>(f: T -> string, xs: seq<T>): (text: string) {
    if xs == [] then "" else ConcatMap(f, xs[..|xs| - 1]) + f(xs[|xs| - 1])
  }

  lemma {:induction false} ConcatMapAppend<T>(f: T -> string, a: seq<T>, b: seq<T>)
    ensures ConcatMap(f, a + b) == ConcatMap(f, a) + ConcatMap(f, b)
  {
    if b == [] {
      assert a + b == a;
    } else {
      var init, last := b[..|b| - 1], b[|b| - 1];
      assert (a + b)[..|a + b| - 1] == a + init;
      assert (a + b)[|a + b| - 1] == last;
      ConcatMapAppend(f, a, init);
    }
  }

  lemma ConcatMapSingle<T>(f: T -> string, x: T)
    ensures ConcatMap(f, [x]) == f(x)
  {
    assert [x][..0] == [];
  }

  /** Parts of at least two characters each make a text of at least two
      characters per part. */
  lemma {:induction false} ConcatMapLength<T>(f: T -> string, xs: seq<T>)
    requires forall x :: |f(x)| >= 2
    ensures |ConcatMap(f, xs)| >= 2 * |xs|
  {
    if xs != [] {
      ConcatMapLength(f, xs[..|xs| - 1]);
    }
  }

  /** Two functions that agree on every element give the same text. */
  lemma {:induction false} ConcatMapAgree<T>(f: T -> string, g: T -> string, xs: seq<T>)
    requires forall i :: 0 <= i < |xs| ==> f(xs[i]) == g(xs[i])
    ensures ConcatMap(f, xs) == ConcatMap(g, xs)
  {
    if xs != [] {
      var init := xs[..|xs| - 1];
      assert forall i :: 0 <= i < |init| ==> init[i] == xs[i];
      ConcatMapAgree(f, g, init);
    }
  }

  /** The body of the digest mail: one block per row, in read order. Every
      row adds text, so the body is empty exactly when there is no row. */
  function Digest(rows: seq<Entry>): (body: string)
    ensures |body| >= 2 * |rows|
    ensures body == "" <==> rows == []
  {
    ConcatMapLength(Block, rows);
    ConcatMap(Block, rows)
  }

  /** Reading the rows in two runs gives the two bodies one after the other. */
  lemma DigestAppend(a: seq<Entry>, b: seq<Entry>)
    ensures Digest(a + b) == Digest(a) + Digest(b)
  {
    ConcatMapAppend(Block, a, b);
  }

  lemma DigestSingle(e: Entry)
    ensures Digest([e]) == Block(e)
  {
    ConcatMapSingle(Block, e);
  }

  /** Reading one more row appends its block. */
  lemma DigestSnoc(rows: seq<Entry>, i: nat)
    requires i < |rows|
    ensures Digest(rows[..i + 1]) == Digest(rows[..i]) + Block(rows[i])
  {
    assert rows[..i + 1] == rows[..i] + [rows[i]];
    DigestAppend(rows[..i], [rows[i]]);
    DigestSingle(rows[i]);
  }

  /** Row `i` contributes exactly its own block, between the blocks of the
      rows read before it and those of the rows read after it. */
  lemma DigestLayout(rows: seq<Entry>, i: nat)
    requires i < |rows|
    ensures Digest(rows) == Digest(rows[..i]) + Block(rows[i]) + Digest(rows[i + 1..])
  {
    assert rows == rows[..i + 1] + rows[i + 1..];
    DigestAppend(rows[..i + 1], rows[i + 1..]);
    DigestSnoc(rows, i);
  }

  /** On a table the intake wrote, the whole body is the blocks as the
      submissions describe them: a block is anonymous exactly when its row
      was submitted anonymously. */
  lemma DigestBySubmitter(rows: seq<Entry>)
    requires forall e :: e in rows ==> e.WellFormed()
    ensures Digest(rows) == ConcatMap(SpeakerBlock, rows)
  {
    forall i | 0 <= i < |rows|
      ensures Block(rows[i]) == SpeakerBlock(rows[i])
    {
      BlockBySubmitter(rows[i]);
    }
    ConcatMapAgree(Block, SpeakerBlock, rows);
  }

  const SubjectLine := "Subject: Today's Messages\n\n"

  /** What the mail transport hands to the relay: the subject header, a blank
      line, then the digest body unchanged. */
  function SmtpMessage(body: string): (m: string)
    ensures |m| == |SubjectLine| + |body|
    ensures m[..|SubjectLine|] == SubjectLine
    ensures m[|SubjectLine|..] == body
  {
    SubjectLine + body
  }
}
