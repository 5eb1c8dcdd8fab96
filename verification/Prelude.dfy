/** Datatypes shared by every component of the model. */
module Prelude {

  datatype Option<+T> = None | Some(value: T)

  /** An interned Message-ID. Two Quarks are equal exactly when their texts are. */
  type Mid = string

  /** An unsigned char. */
  type Byte = b: int | 0 <= b < 256

  const UCHAR_MAX := 255

  type Text = seq<Byte>

  /** The fields of an Article that threading, filtering and display look at. */
  datatype Article = Article(messageId: Mid, subject: string, author: string, score: int)

  function Min(a: int, b: int): int {
    if a < b then a else b
  }

  function Max(a: int, b: int): int {
    if a < b then b else a
  }

  /** StringView::empty: no bytes at all, or a NUL in front. */
  predicate EmptyText(s: Text) {
    s == [] || s[0] == 0
  }

  /** All the pieces in order. */
  function Joined(pieces: seq<Text>): Text {
    if pieces == [] then [] else pieces[0] + Joined(pieces[1..])
  }

  lemma {:induction false} JoinedLast(pieces: seq<Text>, last: Text)
    ensures Joined(pieces + [last]) == Joined(pieces) + last
  {
    if pieces == [] {
      assert Joined(pieces + [last]) == last + Joined([]);
    } else {
      JoinedLast(pieces[1..], last);
      assert (pieces + [last])[1..] == pieces[1..] + [last];
    }
  }

  /** Every element of s occurs once. */
  ghost predicate Distinct<T>(s: seq<T>) {
    forall i, j :: 0 <= i < j < |s| ==> s[i] != s[j]
  }

  /** The elements of s. */
  ghost function Elements<T>(s: seq<T>): set<T> {
    set x | x in s
  }
}
