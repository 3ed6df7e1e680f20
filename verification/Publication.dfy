/**
 Publication of a document with its checksum (database/tools/recovery_contract.py): both files are
 written under temporary names and then moved into place, the document first.  A publication may be
 cut at any step.  A reader reads the checksum, then the document for its digest, then the document
 again, and other moves may come between.
 */
module Publication {
  import opened Basics

  type Hash = string -> string

  const DIGEST_LENGTH := 64

  /** The characters that separate words. */
  predicate IsSpace(c: char) {
    var n := c as int;
    || 9 <= n <= 13 || 28 <= n <= 32 || n == 0x85 || n == 0xA0 || n == 0x1680
    || 0x2000 <= n <= 0x200A || n in {0x2028, 0x2029, 0x202F, 0x205F, 0x3000}
  }

  predicate IsHexDigit(c: char) {
    '0' <= c <= '9' || 'a' <= c <= 'f'
  }

  function LowerChar(c: char): char {
    if 'A' <= c <= 'Z' then c - 'A' + 'a' else c
  }

  function Lower(s: string): string {
    seq(|s|, i requires 0 <= i < |s| => LowerChar(s[i]))
  }

  predicate IsDigest(s: string) {
    |s| == DIGEST_LENGTH && forall i | 0 <= i < |s| :: IsHexDigit(s[i])
  }

  /** SHA-256, taken to be free of collisions on the documents that are ever published. */
  ghost predicate CollisionFree(hash: Hash, documents: set<string>) {
    && (forall d :: IsDigest(hash(d)))
    && (forall d, e | d in documents && e in documents && hash(d) == hash(e) :: d == e)
  }

  // ----- the checksum file -----

  function Sidecar(digest: string, name: string): string {
    digest + "  " + name + "\n"
  }

  function SkipSpace(s: string): string {
    if s != "" && IsSpace(s[0]) then SkipSpace(s[1..]) else s
  }

  function Word(s: string): string {
    if s == "" || IsSpace(s[0]) then "" else [s[0]] + Word(s[1..])
  }

  /** `expected_checksum`: the first word, if it has 64 characters, in lower case. */
  function ExpectedChecksum(text: string): Option<string> {
    var first := Word(SkipSpace(text));
    if |first| != DIGEST_LENGTH then None else Some(Lower(first))
  }

  lemma {:induction false} WordOf(word: string, rest: string)
    requires forall i | 0 <= i < |word| :: !IsSpace(word[i])
    requires rest != "" && IsSpace(rest[0])
    ensures Word(word + rest) == word
  {
    if word == "" {
      assert word + rest == rest;
    } else {
      WordOf(word[1..], rest);
      assert (word + rest)[1..] == word[1..] + rest && word == [word[0]] + word[1..];
    }
  }

  /** The checksum file that is written reads back as the digest it was written for. */
  lemma SidecarReads(digest: string, name: string)
    requires IsDigest(digest)
    ensures ExpectedChecksum(Sidecar(digest, name)) == Some(digest)
  {
    var rest := "  " + name + "\n";
    assert Sidecar(digest, name) == digest + rest;
    assert forall i | 0 <= i < |digest| :: !IsSpace(digest[i]) && LowerChar(digest[i]) == digest[i];
    WordOf(digest, rest);
    assert SkipSpace(digest + rest) == digest + rest;
    assert Lower(digest) == digest;
  }

  lemma {:induction false} SpacesSkipped(spaces: string, rest: string)
    requires forall i | 0 <= i < |spaces| :: IsSpace(spaces[i])
    ensures SkipSpace(spaces + rest) == SkipSpace(rest)
  {
    if spaces == "" {
      assert spaces + rest == rest;
    } else {
      SpacesSkipped(spaces[1..], rest);
      assert (spaces + rest)[1..] == spaces[1..] + rest;
    }
  }

  lemma {:induction false} WordAlone(word: string)
    requires forall i | 0 <= i < |word| :: !IsSpace(word[i])
    ensures Word(word) == word
  {
    if word != "" {
      WordAlone(word[1..]);
      assert word == [word[0]] + word[1..];
    }
  }

  /**
   What any checksum file reads as: its first word, wherever it stands and whatever follows it, with the letters A to Z
   in lower case, if it has 64 characters; and nothing otherwise.
   */
  lemma ChecksumExactly(spaces: string, word: string, rest: string)
    requires forall i | 0 <= i < |spaces| :: IsSpace(spaces[i])
    requires word != "" && forall i | 0 <= i < |word| :: !IsSpace(word[i])
    requires rest == "" || IsSpace(rest[0])
    ensures ExpectedChecksum(spaces) == None
    ensures ExpectedChecksum(spaces + word + rest).Some? <==> |word| == 64
    ensures |word| == 64 ==>
      var r := ExpectedChecksum(spaces + word + rest).value;
      |r| == 64 && forall i | 0 <= i < 64 :: r[i] == if 'A' <= word[i] <= 'Z' then word[i] - 'A' + 'a' else word[i]
  {
    SpacesSkipped(spaces, "");
    assert spaces + "" == spaces;
    SpacesSkipped(spaces, word + rest);
    assert spaces + word + rest == spaces + (word + rest);
    assert SkipSpace(word + rest) == word + rest by { assert (word + rest)[0] == word[0]; }
    if rest == "" {
      assert word + rest == word;
      WordAlone(word);
    } else {
      WordOf(word, rest);
    }
  }

  // ----- what is in place -----

  /** The documents moved into place so far, and the one whose checksum was moved into place last. */
  datatype Place = Place(moved: seq<string>, sealed: Option<string>) {
    function Latest(): Option<string> {
      if moved == [] then None else Some(moved[|moved| - 1])
    }
  }

  /** One move: of a new document, or of the checksum of the latest one. */
  predicate Moves(a: Place, b: Place) {
    || (b.sealed == a.sealed && |b.moved| == |a.moved| + 1 && a.moved <= b.moved)
    || Seals(a, b)
  }

  predicate Seals(a: Place, b: Place) {
    a.moved != [] && b == a.(sealed := a.Latest())
  }

  /** Everything that was ever in place, move by move. */
  ghost predicate Trail(t: seq<Place>) {
    t != [] && t[0] == Place([], None) && forall i | 0 <= i < |t| - 1 :: Moves(t[i], t[i + 1])
  }

  /** One publication, cut anywhere: the two moves happen in order, and a completed one made both. */
  ghost predicate Published(before: seq<Place>, after: seq<Place>, encoded: string, completed: bool) {
    before != [] &&
    var p := before[|before| - 1];
    var moved := Place(p.moved + [encoded], p.sealed);
    && (completed ==> after == before + [moved, moved.(sealed := Some(encoded))])
    && after in {before, before + [moved], before + [moved, moved.(sealed := Some(encoded))]}
  }

  /**
   What a checking reader gets whose three reads happen at these three places: the document in place at
   the last, if the checksum at the first was made for the document in place at the second.
   */
  function Read(first: Place, second: Place, third: Place, acceptable: string -> bool): Option<string> {
    if second.Latest().None? || first.sealed != second.Latest() || third.Latest().None? then None
    else if acceptable(third.Latest().value) then third.Latest()
    else None
  }

  lemma ReadAnswers(first: Place, second: Place, third: Place, acceptable: string -> bool)
    ensures Read(first, second, third, acceptable) ==
      if first.sealed.Some? && second.Latest() == first.sealed && third.Latest().Some? && acceptable(third.Latest().value)
      then third.Latest() else None
  {
  }

  // ----- over a whole trail -----

  /** Documents are only ever added. */
  lemma {:induction false} MovedGrows(t: seq<Place>, i: nat, j: nat)
    requires Trail(t) && i <= j < |t|
    ensures t[i].moved <= t[j].moved
    decreases j
  {
    if i < j {
      MovedGrows(t, i, j - 1);
      assert Moves(t[j - 1], t[j - 1 + 1]);
    }
  }

  // ----- over publications -----

  /** How far a publication got. */
  datatype Extent = Nothing | DocumentOnly | Both

  function Next(p: Place, encoded: string, extent: Extent): Place {
    match extent
    case Nothing => p
    case DocumentOnly => Place(p.moved + [encoded], p.sealed)
    case Both => Place(p.moved + [encoded], Some(encoded))
  }

  /** What is in place after these publications. */
  function After(documents: seq<string>, extents: seq<Extent>): Place
    requires |documents| == |extents|
  {
    if extents == [] then Place([], None)
    else
      var n := |extents| - 1;
      Next(After(documents[..n], extents[..n]), documents[n], extents[n])
  }

  /** Every publication got some way, and a completed one all the way. */
  lemma PublishedToExtent(before: seq<Place>, after: seq<Place>, encoded: string, completed: bool) returns (extent: Extent)
    requires Published(before, after, encoded, completed)
    ensures after != [] && after[|after| - 1] == Next(before[|before| - 1], encoded, extent)
    ensures completed ==> extent == Both
  {
    extent := if |after| == |before| then Nothing else if |after| == |before| + 1 then DocumentOnly else Both;
  }

  /** The last publication that moved its document, and the last that moved its checksum. */
  ghost predicate LastMoved(extents: seq<Extent>, k: int) {
    0 <= k < |extents| && extents[k] != Nothing && forall j | k < j < |extents| :: extents[j] == Nothing
  }

  ghost predicate LastSealed(extents: seq<Extent>, k: int) {
    0 <= k < |extents| && extents[k] == Both && forall j | k < j < |extents| :: extents[j] != Both
  }

  lemma {:induction false} AfterMeans(documents: seq<string>, extents: seq<Extent>)
    requires |documents| == |extents|
    ensures
      var p := After(documents, extents);
      && (p.Latest().None? ==> forall k | 0 <= k < |extents| :: extents[k] == Nothing)
      && (p.Latest().Some? ==> exists k :: LastMoved(extents, k) && p.Latest() == Some(documents[k]))
      && (p.sealed.None? ==> forall k | 0 <= k < |extents| :: extents[k] != Both)
      && (p.sealed.Some? ==> exists k :: LastSealed(extents, k) && p.sealed == Some(documents[k]))
    decreases |extents|
  {
    if extents != [] {
      var n := |extents| - 1;
      var front := extents[..n];
      AfterMeans(documents[..n], front);
      var q := After(documents[..n], front);
      if extents[n] == Nothing && q.Latest().Some? {
        var k :| LastMoved(front, k) && q.Latest() == Some(documents[..n][k]);
        assert LastMoved(extents, k) && documents[k] == documents[..n][k];
      } else if extents[n] != Nothing {
        assert LastMoved(extents, n);
      }
      if extents[n] != Both && q.sealed.Some? {
        var k :| LastSealed(front, k) && q.sealed == Some(documents[..n][k]);
        assert LastSealed(extents, k) && documents[k] == documents[..n][k];
      } else if extents[n] == Both {
        assert LastSealed(extents, n);
      }
    }
  }

  lemma LastIsUnique(extents: seq<Extent>, j: int, k: int)
    ensures LastMoved(extents, j) && LastMoved(extents, k) ==> j == k
    ensures LastSealed(extents, j) && LastSealed(extents, k) ==> j == k
  {
  }

  /**
   A reader at one moment is refused an acceptable document exactly when no publication has moved its document, or the
   last one that did was cut before its checksum and its bytes differ from those whose checksum was moved last, if any.
   */
  lemma RefusedExactly(documents: seq<string>, extents: seq<Extent>, acceptable: string -> bool)
    requires |documents| == |extents|
    requires forall k | LastMoved(extents, k) :: acceptable(documents[k])
    ensures
      var p := After(documents, extents);
      Read(p, p, p, acceptable).None? <==>
        || (forall k | 0 <= k < |extents| :: extents[k] == Nothing)
        || (exists k :: LastMoved(extents, k) && extents[k] == DocumentOnly && Differs(documents, extents, documents[k]))
  {
    var p := After(documents, extents);
    AfterMeans(documents, extents);
    hide After;
    if p.Latest().Some? {
      var k :| LastMoved(extents, k) && p.Latest() == Some(documents[k]);
      assert acceptable(documents[k]);
      OnlyLast(documents, extents, k);
      if p.sealed.Some? {
        var j :| LastSealed(extents, j) && p.sealed == Some(documents[j]);
        SealedLast(documents, extents, j, documents[k]);
        LastBoth(extents, k, j);
      } else {
        assert Differs(documents, extents, documents[k]);
      }
    } else {
      NoneMoved(extents);
    }
  }

  /** The document whose checksum was moved last, if any, has other bytes. */
  ghost predicate Differs(documents: seq<string>, extents: seq<Extent>, d: string)
    requires |documents| == |extents|
  {
    forall j | LastSealed(extents, j) :: documents[j] != d
  }

  lemma OnlyLast(documents: seq<string>, extents: seq<Extent>, k: int)
    requires |documents| == |extents| && LastMoved(extents, k)
    ensures forall j | LastMoved(extents, j) :: j == k
    ensures exists i | 0 <= i < |extents| :: extents[i] != Nothing
  {
    assert extents[k] != Nothing;
  }

  lemma SealedLast(documents: seq<string>, extents: seq<Extent>, j: int, d: string)
    requires |documents| == |extents| && LastSealed(extents, j)
    ensures Differs(documents, extents, d) <==> documents[j] != d
  {
    forall i | LastSealed(extents, i)
      ensures i == j
    {
      LastIsUnique(extents, i, j);
    }
  }

  /** If the last publication to move its document also sealed it, it is the last that sealed one. */
  lemma LastBoth(extents: seq<Extent>, k: int, j: int)
    requires LastMoved(extents, k) && LastSealed(extents, j)
    ensures extents[k] == Both ==> j == k
    ensures extents[k] in {DocumentOnly, Both}
  {
  }

  lemma NoneMoved(extents: seq<Extent>)
    ensures (forall k | 0 <= k < |extents| :: extents[k] == Nothing) ==> forall k :: !LastMoved(extents, k)
  {
  }

  // ----- readers whose reads interleave with moves -----

  /**
   Readers never go back.  Whatever a reader gets was moved into place, was the latest at its last read, and stands in
   the order of moves no earlier than what any reader got whose last read came before.
   */
  lemma ReadersNeverGoBack(
      t: seq<Place>, i1: nat, j1: nat, k1: nat, i2: nat, j2: nat, k2: nat, acceptable: string -> bool)
    requires Trail(t) && i1 <= j1 <= k1 < |t| && i2 <= j2 <= k2 < |t| && k1 <= k2
    requires Read(t[i1], t[j1], t[k1], acceptable).Some? && Read(t[i2], t[j2], t[k2], acceptable).Some?
    ensures
      var p1, p2 := |t[k1].moved| - 1, |t[k2].moved| - 1;
      && 0 <= p1 <= p2
      && Read(t[i1], t[j1], t[k1], acceptable) == Some(t[k2].moved[p1])
      && Read(t[i2], t[j2], t[k2], acceptable) == Some(t[k2].moved[p2])
  {
    MovedGrows(t, k1, k2);
  }

  /**
   The document that a reader returns is the one whose checksum it has checked if and only if the same document was in
   place at both reads of it; and if none was moved during the whole read, a reader at its last moment gets the same.
   */
  lemma ReturnedIsChecked(t: seq<Place>, i: nat, j: nat, k: nat, acceptable: string -> bool)
    requires Trail(t) && i <= j <= k < |t| && Read(t[i], t[j], t[k], acceptable).Some?
    ensures Read(t[i], t[j], t[k], acceptable) == t[i].sealed <==> t[j].Latest() == t[k].Latest()
    ensures t[i].moved == t[k].moved ==> Read(t[k], t[k], t[k], acceptable) == Read(t[i], t[j], t[k], acceptable)
  {
    MovedGrows(t, i, j);
    MovedGrows(t, j, k);
    if t[i].moved == t[k].moved {
      SealKept(t, i, k);
    }
  }

  lemma {:induction false} SealKept(t: seq<Place>, i: nat, k: nat)
    requires Trail(t) && i <= k < |t| && t[i].moved == t[k].moved && t[i].sealed == t[i].Latest()
    ensures t[k].sealed == t[k].Latest()
    decreases k
  {
    if i < k {
      MovedGrows(t, i, k - 1);
      MovedGrows(t, k - 1, k);
      assert Moves(t[k - 1], t[k - 1 + 1]);
      SealKept(t, i, k - 1);
    }
  }

  /** A document can be returned of which no checksum was checked: it was moved into place between the two reads of it. */
  lemma UncheckedDocument(a: string, b: string, acceptable: string -> bool) returns (t: seq<Place>)
    requires a != b && acceptable(b)
    ensures Trail(t) && |t| == 4 && Read(t[2], t[2], t[3], acceptable) == Some(b) && t[3].sealed == Some(a)
  {
    t := [Place([], None), Place([a], None), Place([a], Some(a)), Place([a, b], Some(a))];
  }

  /** After a completed publication every reader gets exactly its document, until another one is moved into place. */
  lemma CompletedIsRead(
      before: seq<Place>, after: seq<Place>, t: seq<Place>, encoded: string, i: nat, j: nat, k: nat, acceptable: string -> bool)
    requires Published(before, after, encoded, true) && acceptable(encoded)
    requires Trail(t) && after <= t && |after| - 1 <= i <= j <= k < |t|
    requires t[k].moved == after[|after| - 1].moved
    ensures Read(t[i], t[j], t[k], acceptable) == Some(encoded)
  {
    var n := |after| - 1;
    assert t[n] == after[n];
    MovedGrows(t, n, i);
    MovedGrows(t, i, j);
    MovedGrows(t, j, k);
    SealKept(t, n, i);
  }

  // ----- publishing and reading -----

  class Disk {
    const name: string
    const hash: Hash
    var document: Option<string>
    var sidecar: Option<string>
    var temporaries: map<string, string>
    // All documents that are ever published here.
    const documents: set<string>
    ghost var trail: seq<Place>

    ghost predicate Valid()
      reads this
    {
      && CollisionFree(hash, documents)
      && trail != [] && Trail(trail) && InPlace(trail[|trail| - 1])
    }

    /** The two files are what was moved into place. */
    ghost predicate InPlace(p: Place)
      reads this`document, this`sidecar
    {
      && (p.Latest().Some? ==> p.Latest().value in documents) && (p.sealed.Some? ==> p.sealed.value in documents)
      && document == p.Latest()
      && sidecar == (if p.sealed.None? then None else Some(Sidecar(hash(p.sealed.value), name)))
    }

    ghost function Now(): Place
      requires Valid()
      reads this
    {
      trail[|trail| - 1]
    }

    constructor (name: string, hash: Hash, documents: set<string>)
      requires CollisionFree(hash, documents)
      ensures Valid() && trail == [Place([], None)]
      ensures this.name == name && this.hash == hash && this.documents == documents
    {
      this.name, this.hash, this.documents := name, hash, documents;
      document, sidecar, temporaries, trail := None, None, map[], [Place([], None)];
    }

    /** Write a temporary file; a cut leaves any part of it behind. */
    method WriteTemporary(file: string, content: string) returns (ok: bool)
      modifies this`temporaries
      ensures ok ==> file in temporaries && temporaries[file] == content
      ensures forall other | other in old(temporaries) && other != file :: other in temporaries && temporaries[other] == old(temporaries)[other]
    {
      ok := *;
      var n: nat :| n <= |content|;
      temporaries := temporaries[file := if ok then content else content[..n]];
    }

    /** Move a temporary file over the document. */
    method MoveDocument(file: string)
      requires Valid() && file in temporaries && temporaries[file] in documents
      modifies this
      ensures Valid() && temporaries == old(temporaries) - {file}
      ensures trail == old(trail) + [Place(old(Now()).moved + [old(temporaries)[file]], old(Now()).sealed)]
    {
      hide CollisionFree;
      trail := trail + [Place(Now().moved + [temporaries[file]], Now().sealed)];
      document := Some(temporaries[file]);
      temporaries := temporaries - {file};
    }

    /** Move a temporary file over the checksum of the document in place. */
    method MoveSidecar(file: string)
      requires Valid() && Now().Latest().Some?
      requires file in temporaries && temporaries[file] == Sidecar(hash(Now().Latest().value), name)
      modifies this
      ensures Valid() && temporaries == old(temporaries) - {file}
      ensures trail == old(trail) + [old(Now()).(sealed := old(Now()).Latest())]
    {
      hide CollisionFree;
      trail := trail + [Now().(sealed := Now().Latest())];
      sidecar := Some(temporaries[file]);
      temporaries := temporaries - {file};
    }

    /**
     `write_json_with_checksum`, cut anywhere: while writing a temporary file, between the moves, or
     while cleaning up.
     */
    method Publish(encoded: string, token: string) returns (completed: bool)
      requires Valid() && encoded in documents
      modifies this
      ensures Valid() && Published(old(trail), trail, encoded, completed)
    {
      hide CollisionFree, Trail, Sidecar;
      var temporaryDocument := token + ".document.tmp";
      var temporarySidecar := token + ".sha256.tmp";
      assert temporaryDocument != temporarySidecar by {
        assert temporaryDocument[|temporaryDocument| - 5] == 't' && temporarySidecar[|temporarySidecar| - 5] == '6';
      }
      completed := false;
      var ok := WriteTemporary(temporaryDocument, encoded);
      if ok {
        ok := WriteTemporary(temporarySidecar, Sidecar(hash(encoded), name));
      }
      var cut: bool := *;
      if ok && !cut {
        MoveDocument(temporaryDocument);
        cut := *;
        if !cut {
          MoveSidecar(temporarySidecar);
          assert trail == old(trail) + [trail[|trail| - 2], trail[|trail| - 1]];
          completed := *;
        }
      }
      CleanUp(temporaryDocument, temporarySidecar);
    }

    /** The `finally` part, which a crash skips. */
    method CleanUp(a: string, b: string)
      modifies this`temporaries
      ensures temporaries == old(temporaries) || temporaries == old(temporaries) - {a, b}
    {
      var crash: bool := *;
      if !crash {
        temporaries := temporaries - {a, b};
      }
    }

    /** Whatever other programs do between two reads: any number of moves. */
    method Others(token: string)
      requires Valid()
      modifies this
      ensures Valid() && old(trail) <= trail
    {
      hide CollisionFree, Trail, Sidecar;
      var n: nat :| true;
      for i := 0 to n
        invariant Valid() && old(trail) <= trail
      {
        var sealing: bool := *;
        if sealing && document.Some? {
          temporaries := temporaries[token := Sidecar(hash(document.value), name)];
          MoveSidecar(token);
        } else if d :| d in documents {
          temporaries := temporaries[token := d];
          MoveDocument(token);
        }
      }
    }

    /**
     `validate_checksummed_document`: three reads, with anything in between.  What a reader gets depends only on what was
     in place at these three moments.
     */
    method ReadChecked(acceptable: string -> bool, token: string)
        returns (r: Option<string>, ghost i: nat, ghost j: nat, ghost k: nat)
      requires Valid()
      modifies this
      ensures Valid() && old(trail) <= trail && |old(trail)| - 1 <= i <= j <= k < |trail|
      ensures r == Read(trail[i], trail[j], trail[k], acceptable)
    {
      hide Trail, CollisionFree, Sidecar, InPlace, Read;
      i, j, k := |trail| - 1, |trail| - 1, |trail| - 1;
      var expected := ReadExpected();
      ReadAnswers(Now(), Now(), Now(), acceptable);
      if expected.None? {
        return None, i, j, k;
      }
      Others(token);
      j, k := |trail| - 1, |trail| - 1;
      var same := HasDigest(expected.value, trail[i].sealed);
      ReadAnswers(trail[i], trail[j], trail[j], acceptable);
      if !same {
        return None, i, j, k;
      }
      Others(token);
      k := |trail| - 1;
      ReadAnswers(trail[i], trail[j], trail[k], acceptable);
      r := ReadAcceptable(acceptable);
    }

    /** The digest in the checksum file, if there is one. */
    method ReadExpected() returns (expected: Option<string>)
      requires Valid()
      ensures Now().sealed.Some? ==> Now().sealed.value in documents
      ensures expected == match Now().sealed case None => None case Some(d) => Some(hash(d))
    {
      if Now().sealed.Some? {
        SidecarReads(hash(Now().sealed.value), name);
      }
      if sidecar.None? {
        return None;
      }
      expected := ExpectedChecksum(sidecar.value);
    }

    /** Whether the document in place has this digest, which is that of a published document. */
    method HasDigest(expected: string, ghost sealed: Option<string>) returns (same: bool)
      requires Valid() && sealed.Some? && sealed.value in documents && expected == hash(sealed.value)
      ensures same <==> Now().Latest() == sealed
    {
      same := document.Some? && hash(document.value) == expected;
    }

    method ReadAcceptable(acceptable: string -> bool) returns (r: Option<string>)
      requires Valid()
      ensures r == if Now().Latest().Some? && acceptable(Now().Latest().value) then Now().Latest() else None
    {
      if document.None? || !acceptable(document.value) {
        return None;
      }
      r := document;
    }
  }
}
