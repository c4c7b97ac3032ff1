/**
  The shopping list as a value: the records the app keeps in its `listItems`
  state, and the three list updates behind the add, check and delete buttons,
  written as functions on sequences of records.
 */
module Items {

  /** `Some(v)` when the store holds a list, `None` when it holds nothing. */
  datatype Option<T> = None | Some(value: T)

  /** One entry of the list. The key doubles as the entry's identity. */
  datatype Item = Item(key: string, item: string, isDone: bool)

  /** The record that adding `text` creates: key and label are both the text. */
  function NewItem(text: string): Item
  {
    Item(text, text, false)
  }

  /** Number of records in `s` whose key is `k`. */
  function CountKey(s: seq<Item>, k: string): (n: nat)
    ensures n <= |s|
    ensures n == 0 <==> forall x :: x in s ==> x.key != k
  {
    if s == [] then 0
    else (if s[0].key == k then 1 else 0) + CountKey(s[1..], k)
  }

  lemma {:induction false} CountKeyAppend(a: seq<Item>, b: seq<Item>, k: string)
    ensures CountKey(a + b, k) == CountKey(a, k) + CountKey(b, k)
  {
    if a != [] {
      assert (a + b)[1..] == a[1..] + b;
      CountKeyAppend(a[1..], b, k);
    } else {
      assert a + b == b;
    }
  }

  /**
    The list after adding `text`: only the exact empty string is refused;
    any other text, blank or already present, is appended as a fresh record.
   */
  function Added(s: seq<Item>, text: string): seq<Item>
  {
    if text == "" then s else s + [NewItem(text)]
  }

  lemma AddEmptyIsNoOp(s: seq<Item>)
    ensures Added(s, "") == s
  {
  }

  /** Adding non-empty text appends exactly one undone record and keeps the rest. */
  lemma AddAppendsOne(s: seq<Item>, text: string)
    requires text != ""
    ensures |Added(s, text)| == |s| + 1
    ensures forall i :: 0 <= i < |s| ==> Added(s, text)[i] == s[i]
    ensures Added(s, text)[|s|] == Item(text, text, false)
  {
  }

  /**
    Add does not check for duplicates: adding a key that is already present
    gives one more record with that key.
   */
  lemma AddAllowsDuplicates(s: seq<Item>, text: string)
    requires text != ""
    ensures CountKey(Added(s, text), text) == CountKey(s, text) + 1
  {
    CountKeyAppend(s, [NewItem(text)], text);
  }

  /**
    Only the exact empty string is refused: any other text, blank or not,
    changes the list.
   */
  lemma AddRefusesOnlyEmpty(s: seq<Item>, text: string)
    ensures Added(s, text) == s <==> text == ""
  {
    if text != "" {
      assert |Added(s, text)| == |s| + 1;
    }
  }

  /**
    The list after checking key `k`: every record with key `k` is done,
    every other record is as it was; keys, labels, length and order stay.
   */
  function Marked(s: seq<Item>, k: string): (r: seq<Item>)
    ensures |r| == |s|
    ensures forall i :: 0 <= i < |s| ==>
      r[i].key == s[i].key && r[i].item == s[i].item &&
      r[i].isDone == (s[i].isDone || s[i].key == k)
  {
    if s == [] then []
    else [if s[0].key == k then s[0].(isDone := true) else s[0]] + Marked(s[1..], k)
  }

  /** Checking twice with the same key is the same as checking once. */
  lemma MarkedIdempotent(s: seq<Item>, k: string)
    ensures Marked(Marked(s, k), k) == Marked(s, k)
  {
    // Index by index, the second pass sets no flag the first left unset.
  }

  /** Checking a key that no record has leaves the list as it is. */
  lemma MarkAbsentIsNoOp(s: seq<Item>, k: string)
    requires CountKey(s, k) == 0
    ensures Marked(s, k) == s
  {
    // No index has key k, so every record keeps its flag.
  }

  /**
    The list after deleting key `k`: every record with key `k` goes, and the
    survivors are the other records, whole and in their original order.
   */
  function Removed(s: seq<Item>, k: string): (r: seq<Item>)
    ensures |r| == |s| - CountKey(s, k)
    ensures CountKey(r, k) == 0
  {
    if s == [] then []
    else if s[0].key == k then Removed(s[1..], k)
    else [s[0]] + Removed(s[1..], k)
  }

  /** The survivors of a delete are exactly the records of `s` whose key is not `k`. */
  lemma {:induction false} RemovedMembers(s: seq<Item>, k: string, x: Item)
    ensures x in Removed(s, k) <==> x in s && x.key != k
  {
    if s != [] {
      RemovedMembers(s[1..], k, x);
      assert x in s <==> x == s[0] || x in s[1..];
    }
  }

  /**
    Deleting distributes over concatenation, so survivors from an earlier
    part of the list stay ahead of survivors from a later part.
   */
  lemma {:induction false} RemovedAppend(a: seq<Item>, b: seq<Item>, k: string)
    ensures Removed(a + b, k) == Removed(a, k) + Removed(b, k)
  {
    if a == [] {
      assert a + b == b;
    } else {
      var c := a + b;
      assert c[0] == a[0] && c[1..] == a[1..] + b;
      RemovedAppend(a[1..], b, k);
      if a[0].key != k {
        calc {
          Removed(c, k);
          [a[0]] + Removed(a[1..] + b, k);
          [a[0]] + (Removed(a[1..], k) + Removed(b, k));
          ([a[0]] + Removed(a[1..], k)) + Removed(b, k);
        }
      }
    }
  }

  /** Deleting leaves the list unchanged exactly when no record has the key. */
  lemma {:induction false} RemovedUnchangedIff(s: seq<Item>, k: string)
    ensures Removed(s, k) == s <==> CountKey(s, k) == 0
  {
    if CountKey(s, k) == 0 && s != [] {
      assert s[0] in s;
      assert CountKey(s[1..], k) == 0;
      RemovedUnchangedIff(s[1..], k);
      assert s == [s[0]] + s[1..];
    }
  }

  /** Deleting a key twice is the same as deleting it once. */
  lemma RemovedIdempotent(s: seq<Item>, k: string)
    ensures Removed(Removed(s, k), k) == Removed(s, k)
  {
    RemovedUnchangedIff(Removed(s, k), k);
  }

  /** A user request coming from the list screen. */
  datatype Intent = Add(text: string) | Check(data: Item) | Delete(data: Item)

  /** The list after one request; check and delete act on the pressed record's key. */
  function Apply(s: seq<Item>, op: Intent): seq<Item>
  {
    match op
    case Add(text) => Added(s, text)
    case Check(data) => Marked(s, data.key)
    case Delete(data) => Removed(s, data.key)
  }

  /** The list after a run of requests, in order. */
  function Run(s: seq<Item>, ops: seq<Intent>): seq<Item>
    decreases |ops|
  {
    if ops == [] then s else Run(Apply(s, ops[0]), ops[1..])
  }

  /**
    Every record was made by adding: its key equals its label and is not
    the empty string.
   */
  ghost predicate WellFormed(s: seq<Item>)
  {
    forall x :: x in s ==> x.key == x.item && x.key != ""
  }

  lemma ApplyKeepsWellFormed(s: seq<Item>, op: Intent)
    requires WellFormed(s)
    ensures WellFormed(Apply(s, op))
  {
    match op
    case Add(text) =>
    case Check(data) =>
      var r := Marked(s, data.key);
      forall x | x in r
        ensures x.key == x.item && x.key != ""
      {
        var i :| 0 <= i < |r| && r[i] == x;
        assert s[i] in s;
      }
    case Delete(data) =>
      forall x | x in Removed(s, data.key)
        ensures x.key == x.item && x.key != ""
      {
        RemovedMembers(s, data.key, x);
      }
  }

  /** Any run of requests from a well-formed list, e.g. the empty one, keeps it well-formed. */
  lemma {:induction false} RunKeepsWellFormed(s: seq<Item>, ops: seq<Intent>)
    requires WellFormed(s)
    ensures WellFormed(Run(s, ops))
    decreases |ops|
  {
    if ops != [] {
      ApplyKeepsWellFormed(s, ops[0]);
      RunKeepsWellFormed(Apply(s, ops[0]), ops[1..]);
    }
  }
}
