// The append-only hash chain of storage/evidence_chain.py. SHA-256 is a parameter of which only
// the form of its hex digest is assumed; what a head hash commits to holds up to collisions
// between texts that the chains at hand contain.
module EvidenceChain {
  import opened Json
  import opened Options

  // The covered columns by name, and the three chain columns; None where the row has no value.
  datatype Row = Row(core: map<string, Value>, chainSeq: Option<int>, prevHash: Option<string>, hash: Option<string>)

  datatype Link = Link(seqNo: nat, prevHash: string, hash: string)

  // The hex digest of a text.
  type Digest = string -> string

  ghost predicate WritesDigests(h: Digest) {
    forall a :: IsDigest(h(a))
  }

  // What a hex digest guarantees about its text.
  predicate IsDigest(s: string) {
    s != "" && '\n' !in s
  }

  predicate Collides(h: Digest, a: string, b: string) {
    a != b && h(a) == h(b)
  }

  function GenesisPrevHash(): (s: string)
    ensures IsDigest(s)
    ensures |s| == 64 && forall k | 0 <= k < 64 :: s[k] == '0'
  {
    seq(64, _ => '0')
  }

  // The [name, value] pairs in column order; a missing column reads as null.
  function CoveredColumns(columns: seq<string>, core: map<string, Value>): (c: Pairs)
    ensures |c| == |columns|
  {
    seq(|columns|, k requires 0 <= k < |columns| =>
      (columns[k], if columns[k] in core then core[columns[k]] else Null))
  }

  function SerializeCore(columns: seq<string>, core: map<string, Value>): string {
    Serialize(CoveredColumns(columns, core))
  }

  function LinkText(seqNo: nat, prevHash: string, serialized: string): string {
    Decimal(seqNo) + ("\n" + (prevHash + ("\n" + serialized)))
  }

  function LinkHash(h: Digest, seqNo: nat, prevHash: string, serialized: string): string {
    h(LinkText(seqNo, prevHash, serialized))
  }

  // The chain fields of the row that follows (prevSeq, prevHash).
  function NextLink(h: Digest, prevSeq: Option<nat>, prevHash: Option<string>, columns: seq<string>,
                    core: map<string, Value>): Link {
    var seqNo := if prevSeq.None? then 0 else prevSeq.value + 1;
    var prev := if prevHash.Some? && prevHash.value != "" then prevHash.value else GenesisPrevHash();
    Link(seqNo, prev, LinkHash(h, seqNo, prev, SerializeCore(columns, core)))
  }

  // The links the writer gives a table's rows, first to last.
  function Generated(h: Digest, columns: seq<string>, rows: seq<Row>): (links: seq<Link>)
    ensures |links| == |rows|
  {
    if rows == [] then []
    else
      var before, row := Generated(h, columns, rows[..|rows| - 1]), rows[|rows| - 1];
      if before == [] then [NextLink(h, None, None, columns, row.core)]
      else
        var head := before[|before| - 1];
        before + [NextLink(h, Some(head.seqNo), Some(head.hash), columns, row.core)]
  }

  predicate Carries(row: Row, link: Link) {
    row.chainSeq == Some(link.seqNo) && row.prevHash == Some(link.prevHash) && row.hash == Some(link.hash)
  }

  // Every row carries the link the writer would have given it.
  ghost predicate Authentic(h: Digest, columns: seq<string>, rows: seq<Row>) {
    forall k | 0 <= k < |rows| :: Carries(rows[k], Generated(h, columns, rows)[k])
  }

  // ------------------------------------------------------------------ generated chains

  lemma {:induction false} GeneratedPrefix(h: Digest, columns: seq<string>, rows: seq<Row>, k: nat)
    requires k <= |rows|
    ensures Generated(h, columns, rows)[..k] == Generated(h, columns, rows[..k])
  {
    if k < |rows| {
      var init := rows[..|rows| - 1];
      GeneratedPrefix(h, columns, init, k);
      assert init[..k] == rows[..k];
    } else {
      assert rows[..k] == rows;
    }
  }

  // Dropping the newest rows leaves an authentic chain: truncation is the one edit a chain
  // alone cannot show.
  lemma TruncationUndetected(h: Digest, columns: seq<string>, rows: seq<Row>, k: nat)
    requires k <= |rows| && Authentic(h, columns, rows)
    ensures Authentic(h, columns, rows[..k])
  {
    GeneratedPrefix(h, columns, rows, k);
    forall i | 0 <= i < k
      ensures Carries(rows[..k][i], Generated(h, columns, rows[..k])[i])
    {
      assert Generated(h, columns, rows)[..k][i] == Generated(h, columns, rows)[i];
    }
  }

  ghost function HeadHash(h: Digest, columns: seq<string>, rows: seq<Row>): string {
    if rows == [] then GenesisPrevHash() else Generated(h, columns, rows)[|rows| - 1].hash
  }

  // What each generated link holds: its position, the hash before it, and its own digest.
  lemma {:induction false} GeneratedLast(h: Digest, columns: seq<string>, rows: seq<Row>)
    requires WritesDigests(h) && rows != []
    ensures var n := |rows| - 1;
            var prev := HeadHash(h, columns, rows[..n]);
            Generated(h, columns, rows)[n]
            == Link(n, prev, LinkHash(h, n, prev, SerializeCore(columns, rows[n].core)))
  {
    var init := rows[..|rows| - 1];
    if init != [] {
      GeneratedLast(h, columns, init);
      assert IsDigest(Generated(h, columns, init)[|init| - 1].hash);
    }
  }

  // One more row keeps a chain authentic exactly when it carries the next link.
  lemma AuthenticStep(h: Digest, columns: seq<string>, rows: seq<Row>, row: Row)
    requires WritesDigests(h) && Authentic(h, columns, rows)
    ensures Authentic(h, columns, rows + [row]) <==>
            var n, prev := |rows|, HeadHash(h, columns, rows);
            Carries(row, Link(n, prev, LinkHash(h, n, prev, SerializeCore(columns, row.core))))
  {
    var longer := rows + [row];
    assert longer[..|rows|] == rows;
    GeneratedLast(h, columns, longer);
    GeneratedPrefix(h, columns, longer, |rows|);
    assert forall k | 0 <= k < |rows| ::
      Generated(h, columns, longer)[k] == Generated(h, columns, longer)[..|rows|][k];
  }

  // What the writer appends to an authentic table is authentic.
  lemma AppendKeepsAuthentic(h: Digest, columns: seq<string>, rows: seq<Row>, row: Row)
    requires WritesDigests(h) && Authentic(h, columns, rows)
    requires var head := if rows == [] then Row(map[], None, None, None) else rows[|rows| - 1];
             (head.chainSeq.Some? ==> head.chainSeq.value >= 0)
             && var prevSeq: Option<nat> := if head.chainSeq.None? then None else Some(head.chainSeq.value);
                Carries(row, NextLink(h, prevSeq, head.hash, columns, row.core))
    ensures Authentic(h, columns, rows + [row])
  {
    AuthenticStep(h, columns, rows, row);
    if rows != [] {
      GeneratedLast(h, columns, rows);
    }
  }

  // ------------------------------------------------------------------ verification

  datatype Reason = NonContiguous | BrokenLinkage | HashMismatch
  datatype Verdict = Intact(checked: nat) | Broken(checked: nat, breakSeq: Option<int>, reason: Reason)

  // The walk accepts exactly the authentic chains; otherwise it stops at the longest authentic
  // prefix and names the first check the next row fails.
  method VerifyChain(h: Digest, columns: seq<string>, rows: seq<Row>) returns (v: Verdict)
    requires WritesDigests(h)
    ensures v.Intact? <==> Authentic(h, columns, rows)
    ensures v.Intact? ==> v.checked == |rows|
    ensures v.Broken? ==>
              && v.checked < |rows|
              && Authentic(h, columns, rows[..v.checked])
              && !Authentic(h, columns, rows[..v.checked + 1])
              && v.breakSeq == rows[v.checked].chainSeq
              && (v.reason.NonContiguous? <==> rows[v.checked].chainSeq != Some(v.checked))
              && (v.reason.BrokenLinkage? <==>
                    rows[v.checked].chainSeq == Some(v.checked)
                    && rows[v.checked].prevHash != Some(HeadHash(h, columns, rows[..v.checked])))
  {
    hide Generated, Authentic, HeadHash, LinkHash, SerializeCore;
    var prevHash := GenesisPrevHash();
    var checked: nat := 0;
    EmptyAuthentic(h, columns, rows);
    for index := 0 to |rows|
      invariant checked == index
      invariant Authentic(h, columns, rows[..index])
      invariant prevHash == HeadHash(h, columns, rows[..index])
    {
      var row := rows[index];
      assert rows[..index + 1] == rows[..index] + [row];
      AuthenticStep(h, columns, rows[..index], row);
      if row.chainSeq != Some(index) {
        BreakIsFinal(h, columns, rows, index);
        return Broken(checked, row.chainSeq, NonContiguous);
      }
      if row.prevHash != Some(prevHash) {
        BreakIsFinal(h, columns, rows, index);
        return Broken(checked, row.chainSeq, BrokenLinkage);
      }
      var expected := LinkHash(h, index, prevHash, SerializeCore(columns, row.core));
      if row.hash != Some(expected) {
        BreakIsFinal(h, columns, rows, index);
        return Broken(checked, row.chainSeq, HashMismatch);
      }
      HeadStep(h, columns, rows[..index], row);
      prevHash := expected;
      checked := checked + 1;
    }
    assert rows[..|rows|] == rows;
    return Intact(checked);
  }

  lemma EmptyAuthentic(h: Digest, columns: seq<string>, rows: seq<Row>)
    ensures Authentic(h, columns, rows[..0]) && HeadHash(h, columns, rows[..0]) == GenesisPrevHash()
  {
  }

  lemma BreakIsFinal(h: Digest, columns: seq<string>, rows: seq<Row>, k: nat)
    requires k < |rows| && !Authentic(h, columns, rows[..k + 1])
    ensures !Authentic(h, columns, rows)
  {
    if Authentic(h, columns, rows) {
      TruncationUndetected(h, columns, rows, k + 1);
    }
  }

  lemma HeadStep(h: Digest, columns: seq<string>, rows: seq<Row>, row: Row)
    requires WritesDigests(h)
    ensures var n, prev := |rows|, HeadHash(h, columns, rows);
            HeadHash(h, columns, rows + [row]) == LinkHash(h, n, prev, SerializeCore(columns, row.core))
  {
    assert (rows + [row])[..|rows|] == rows;
    GeneratedLast(h, columns, rows + [row]);
  }

  // ------------------------------------------------------------------ what the head commits to

  // The newline delimiters keep the three hashed fields apart.
  lemma LinkTextInjective(a: nat, prev: string, s: string, b: nat, prev': string, s': string)
    requires '\n' !in prev && '\n' !in prev'
    requires LinkText(a, prev, s) == LinkText(b, prev', s')
    ensures a == b && prev == prev' && s == s'
  {
    SplitAt('\n', Decimal(a), prev + ("\n" + s), Decimal(b), prev' + ("\n" + s'));
    SplitAt('\n', prev, s, prev', s');
    DecimalInjective(a, b);
  }

  lemma HeadHashIsDigest(h: Digest, columns: seq<string>, rows: seq<Row>)
    requires WritesDigests(h)
    ensures IsDigest(HeadHash(h, columns, rows))
  {
    if rows != [] {
      GeneratedLast(h, columns, rows);
    }
  }

  // Every covered name holds the same value in both; a missing one is null.
  ghost predicate SameValues(columns: seq<string>, core: map<string, Value>, core': map<string, Value>) {
    forall name | name in columns ::
      (if name in core then core[name] else Null) == (if name in core' then core'[name] else Null)
  }

  ghost predicate SameContent(columns: seq<string>, rows: seq<Row>, rows': seq<Row>) {
    |rows| == |rows'| && forall k | 0 <= k < |rows| :: SameValues(columns, rows[k].core, rows'[k].core)
  }

  lemma CoveredMeansValues(columns: seq<string>, core: map<string, Value>, core': map<string, Value>)
    ensures CoveredColumns(columns, core) == CoveredColumns(columns, core') <==> SameValues(columns, core, core')
  {
    var a, b := CoveredColumns(columns, core), CoveredColumns(columns, core');
    if a == b {
      forall name | name in columns
        ensures (if name in core then core[name] else Null) == (if name in core' then core'[name] else Null)
      {
        var k :| 0 <= k < |columns| && columns[k] == name;
        assert a[k].1 == b[k].1;
      }
    }
  }

  // The text that the k-th link of a generated chain digests.
  ghost function TextAt(h: Digest, columns: seq<string>, rows: seq<Row>, k: nat): string
    requires k < |rows|
  {
    LinkText(k, HeadHash(h, columns, rows[..k]), SerializeCore(columns, rows[k].core))
  }

  lemma HeadIsDigestOfText(h: Digest, columns: seq<string>, rows: seq<Row>)
    requires WritesDigests(h) && rows != []
    ensures HeadHash(h, columns, rows) == h(TextAt(h, columns, rows, |rows| - 1))
  {
    GeneratedLast(h, columns, rows);
  }

  // Equal texts come from equal positions, equal previous hashes and equal content.
  lemma SameText(h: Digest, columns: seq<string>, rows: seq<Row>, k: nat, rows': seq<Row>, k': nat)
    requires WritesDigests(h) && k < |rows| && k' < |rows'|
    ensures TextAt(h, columns, rows, k) == TextAt(h, columns, rows', k') ==>
              && k == k' && HeadHash(h, columns, rows[..k]) == HeadHash(h, columns, rows'[..k'])
              && SameValues(columns, rows[k].core, rows'[k'].core)
  {
    if TextAt(h, columns, rows, k) != TextAt(h, columns, rows', k') {
      return;
    }
    HeadHashIsDigest(h, columns, rows[..k]);
    HeadHashIsDigest(h, columns, rows'[..k']);
    hide HeadHash, CoveredColumns, Serialize;
    CoveredMeansValues(columns, rows[k].core, rows'[k'].core);
    LinkTextInjective(k, HeadHash(h, columns, rows[..k]), SerializeCore(columns, rows[k].core),
                      k', HeadHash(h, columns, rows'[..k']), SerializeCore(columns, rows'[k'].core));
    SerializeInjective(CoveredColumns(columns, rows[k].core), CoveredColumns(columns, rows'[k'].core));
  }

  lemma TextAtPrefix(h: Digest, columns: seq<string>, rows: seq<Row>, n: nat, k: nat)
    requires k < n <= |rows|
    ensures TextAt(h, columns, rows[..n], k) == TextAt(h, columns, rows, k)
  {
    assert rows[..n][..k] == rows[..k];
  }

  // Two different histories with the same newest hash hold two texts, one each, that collide.
  lemma {:induction false} SameHeadCollision(h: Digest, columns: seq<string>, rows: seq<Row>, rows': seq<Row>)
    returns (k: nat, k': nat)
    requires WritesDigests(h) && rows != [] && rows' != []
    ensures k < |rows| && k' < |rows'|
    ensures HeadHash(h, columns, rows) == HeadHash(h, columns, rows') && !SameContent(columns, rows, rows') ==>
              Collides(h, TextAt(h, columns, rows, k), TextAt(h, columns, rows', k'))
    decreases |rows|
  {
    hide HeadHash, TextAt, SameValues, SameContent, WritesDigests;
    k, k' := |rows| - 1, |rows'| - 1;
    if HeadHash(h, columns, rows) != HeadHash(h, columns, rows') || SameContent(columns, rows, rows') {
      return;
    }
    HeadIsDigestOfText(h, columns, rows);
    HeadIsDigestOfText(h, columns, rows');
    if TextAt(h, columns, rows, k) == TextAt(h, columns, rows', k') {
      var n := k;
      SameText(h, columns, rows, n, rows', k');
      InitDiffers(columns, rows, rows');
      k, k' := SameHeadCollision(h, columns, rows[..n], rows'[..n]);
      TextAtPrefix(h, columns, rows, n, k);
      TextAtPrefix(h, columns, rows', n, k');
    }
  }

  // Histories of one length that agree in the last row differ before it.
  lemma InitDiffers(columns: seq<string>, rows: seq<Row>, rows': seq<Row>)
    requires rows != [] && |rows| == |rows'| && !SameContent(columns, rows, rows')
    requires SameValues(columns, rows[|rows| - 1].core, rows'[|rows| - 1].core)
    ensures var n := |rows| - 1; n > 0 && !SameContent(columns, rows[..n], rows'[..n])
  {
    var n := |rows| - 1;
    hide SameValues;
    var k :| 0 <= k < |rows| && !SameValues(columns, rows[k].core, rows'[k].core);
    assert rows[..n][k] == rows[k] && rows'[..n][k] == rows'[k];
  }

  // None of the texts of one chain collides with one of the other's.
  ghost predicate NoCollision(h: Digest, columns: seq<string>, rows: seq<Row>, rows': seq<Row>) {
    forall k, k' | 0 <= k < |rows| && 0 <= k' < |rows'| ::
      !Collides(h, TextAt(h, columns, rows, k), TextAt(h, columns, rows', k'))
  }

  // So, short of such a collision, the newest hash determines the whole history.
  lemma HeadCommits(h: Digest, columns: seq<string>, rows: seq<Row>, rows': seq<Row>)
    requires WritesDigests(h) && rows != [] && rows' != [] && NoCollision(h, columns, rows, rows')
    ensures HeadHash(h, columns, rows) == HeadHash(h, columns, rows') <==> SameContent(columns, rows, rows')
  {
    if SameContent(columns, rows, rows') {
      SameContentSameHead(h, columns, rows, rows');
    } else if HeadHash(h, columns, rows) == HeadHash(h, columns, rows') {
      var k, k' := SameHeadCollision(h, columns, rows, rows');
    }
  }

  lemma {:induction false} SameContentSameHead(h: Digest, columns: seq<string>, rows: seq<Row>, rows': seq<Row>)
    requires WritesDigests(h) && SameContent(columns, rows, rows')
    ensures HeadHash(h, columns, rows) == HeadHash(h, columns, rows')
  {
    if rows != [] {
      var n := |rows| - 1;
      GeneratedLast(h, columns, rows);
      GeneratedLast(h, columns, rows');
      CoveredMeansValues(columns, rows[n].core, rows'[n].core);
      SameContentSameHead(h, columns, rows[..n], rows'[..n]);
    }
  }

  // Two tables that both verify and end in the same chain hash hold the same rows: a deletion,
  // insertion, reordering or mutation that keeps the head hash is caught, short of a collision.
  lemma TamperingIsCaught(h: Digest, columns: seq<string>, rows: seq<Row>, tampered: seq<Row>)
    requires WritesDigests(h) && rows != [] && tampered != [] && NoCollision(h, columns, rows, tampered)
    requires Authentic(h, columns, rows)
    requires tampered[|tampered| - 1].hash == rows[|rows| - 1].hash
    requires !SameContent(columns, rows, tampered)
    ensures !Authentic(h, columns, tampered)
  {
    if Authentic(h, columns, tampered) {
      HeadCommits(h, columns, rows, tampered);
    }
  }

  // In particular one changed value in any covered column is, all chain columns kept.
  lemma ChangedValueIsCaught(h: Digest, columns: seq<string>, rows: seq<Row>, k: nat, name: string, value: Value)
    requires k < |rows| && name in columns
    requires value != if name in rows[k].core then rows[k].core[name] else Null
    requires WritesDigests(h) && Authentic(h, columns, rows)
    requires NoCollision(h, columns, rows, rows[k := rows[k].(core := rows[k].core[name := value])])
    ensures !Authentic(h, columns, rows[k := rows[k].(core := rows[k].core[name := value])])
  {
    var changed := rows[k := rows[k].(core := rows[k].core[name := value])];
    hide Authentic, NoCollision, WritesDigests;
    assert !SameValues(columns, rows[k].core, changed[k].core);
    TamperingIsCaught(h, columns, rows, changed);
  }

  // What a chain's first link digests.
  function FirstText(columns: seq<string>, rows: seq<Row>): string
    requires rows != []
  {
    LinkText(0, GenesisPrevHash(), SerializeCore(columns, rows[0].core))
  }

  // Verification re-serializes every row, so a nonempty chain verifies under the columns it was
  // written with and no others: not reordered, not shortened, and not extended either.
  lemma ColumnsAreFrozen(h: Digest, columns: seq<string>, columns': seq<string>, rows: seq<Row>)
    requires WritesDigests(h) && rows != [] && Authentic(h, columns, rows)
    requires !Collides(h, FirstText(columns, rows), FirstText(columns', rows))
    ensures Authentic(h, columns', rows) <==> columns' == columns
  {
    if Authentic(h, columns', rows) {
      FirstHash(h, columns, rows);
      FirstHash(h, columns', rows);
      var core, genesis := rows[0].core, GenesisPrevHash();
      LinkTextInjective(0, genesis, SerializeCore(columns, core), 0, genesis, SerializeCore(columns', core));
      SerializeInjective(CoveredColumns(columns, core), CoveredColumns(columns', core));
      SameNames(columns, columns', core);
    }
  }

  lemma FirstHash(h: Digest, columns: seq<string>, rows: seq<Row>)
    requires WritesDigests(h) && rows != [] && Authentic(h, columns, rows)
    ensures rows[0].hash == Some(h(FirstText(columns, rows)))
  {
    var first := rows[..1];
    TruncationUndetected(h, columns, rows, 1);
    GeneratedLast(h, columns, first);
    assert Carries(first[0], Generated(h, columns, first)[0]);
    assert first[..0] == [];
  }

  lemma SameNames(columns: seq<string>, columns': seq<string>, core: map<string, Value>)
    requires CoveredColumns(columns, core) == CoveredColumns(columns', core)
    ensures columns == columns'
  {
    var a, b := CoveredColumns(columns, core), CoveredColumns(columns', core);
    assert forall k | 0 <= k < |columns| :: a[k].0 == columns[k] && b[k].0 == columns'[k];
  }

  // ------------------------------------------------------------------ an instance

  lemma QuotedWithoutNewline(s: string)
    ensures '\n' !in Quoted(s)
  {
    BodyWithoutNewline(s);
  }

  lemma {:induction false} BodyWithoutNewline(s: string)
    ensures '\n' !in Body(s)
  {
    if s != "" {
      EscapeWithoutNewline(s[0]);
      hide Escape;
      BodyWithoutNewline(s[1..]);
    }
  }

  lemma EscapeWithoutNewline(c: char)
    ensures '\n' !in Escape(c)
  {
    assert forall v: nat | v < 0x10000 :: '\n' !in Hex4(v);
  }

  // Quoting meets everything that is asked of a digest anywhere here, and collides nowhere.
  lemma QuotingDigests()
    ensures WritesDigests(Quoted)
    ensures forall a, b :: !Collides(Quoted, a, b)
  {
    forall a
      ensures IsDigest(Quoted(a))
    {
      QuotedWithoutNewline(a);
    }
    forall a, b
      ensures !Collides(Quoted, a, b)
    {
      if Quoted(a) == Quoted(b) {
        QuotedInjective(a, "", b, "");
      }
    }
  }

  // One stored row, verified under the column it was written with and under one more.
  lemma AppendedColumnBreaksChain()
    ensures var core := map["a" := Integer(1)];
            var link := NextLink(Quoted, None, None, ["a"], core);
            var rows := [Row(core, Some(link.seqNo), Some(link.prevHash), Some(link.hash))];
            Authentic(Quoted, ["a"], rows) && !Authentic(Quoted, ["a", "b"], rows)
  {
    var core := map["a" := Integer(1)];
    var link := NextLink(Quoted, None, None, ["a"], core);
    var rows := [Row(core, Some(link.seqNo), Some(link.prevHash), Some(link.hash))];
    assert rows[..0] == [];
    QuotingDigests();
    hide Quoted;
    AuthenticStep(Quoted, ["a"], [], rows[0]);
    assert [] + [rows[0]] == rows;
    ColumnsAreFrozen(Quoted, ["a"], ["a", "b"], rows);
  }
}

// The compact ASCII JSON that storage/evidence_chain.py hashes, as Python's json module writes it:
// an array of [name, value] pairs. Its text determines the pairs.
module Json {

  // Python's text of a stored REAL that is not NaN: the shortest decimal that reads back as the
  // same double, or an infinity. It is never the text of an integer.
  predicate IsRealText(s: string) {
    && (forall c | c in s :: IsIntegerChar(c) || IsRealChar(c))
    && (exists c :: c in s && IsRealChar(c))
  }

  predicate IsIntegerChar(c: char) {
    '0' <= c <= '9' || c == '-'
  }

  // What a decimal fraction, an exponent or an infinity adds.
  predicate IsRealChar(c: char) {
    c == '.' || c == 'e' || c == '+' || c == 'I' || c == 'n' || c == 'f' || c == 'i' || c == 't' || c == 'y'
  }

  lemma RealTextExample()
    ensures IsRealText("0.0")
  {
    assert '.' in "0.0";
  }

  type RealText = s: string | IsRealText(s) witness (RealTextExample(); "0.0")

  // A stored column value.
  datatype Value = Null | Integer(i: int) | Real(text: RealText) | Text(s: string)

  type Pairs = seq<(string, Value)>

  // ------------------------------------------------------------------ the text

  function Digit(d: nat): char
    requires d < 16
  {
    if d < 10 then ('0' as int + d) as char else ('a' as int + (d - 10)) as char
  }

  // Four hexadecimal digits of a UTF-16 code unit.
  function Hex4(v: nat): (s: string)
    requires v < 0x10000
    ensures |s| == 4
  {
    [Digit(v / 0x1000), Digit(v / 0x100 % 0x10), Digit(v / 0x10 % 0x10), Digit(v % 0x10)]
  }

  function Unit(v: nat): (s: string)
    requires v < 0x10000
    ensures |s| == 6
  {
    "\\u" + Hex4(v)
  }

  // Characters with a short escape of their own.
  function ShortEscape(c: char): string {
    if c == '"' then "\\\""
    else if c == '\\' then "\\\\"
    else if c == '\n' then "\\n"
    else if c == '\r' then "\\r"
    else if c == '\t' then "\\t"
    else if c as int == 12 then "\\f"
    else if c as int == 8 then "\\b"
    else ""
  }

  // Printable ASCII stands for itself; the rest is escaped, in two units above the basic plane.
  function Escape(c: char): (s: string)
    ensures s != ""
  {
    if ShortEscape(c) != "" then ShortEscape(c)
    else if ' ' <= c <= '~' then [c]
    else if c as int < 0x10000 then Unit(c as int)
    else Unit(0xD800 + (c as int - 0x10000) / 0x400) + Unit(0xDC00 + (c as int - 0x10000) % 0x400)
  }

  function Body(s: string): string {
    if s == "" then "" else Escape(s[0]) + Body(s[1..])
  }

  function Quoted(s: string): string {
    "\"" + (Body(s) + "\"")
  }

  function Decimal(n: nat): (s: string)
    ensures s != "" && forall k | 0 <= k < |s| :: '0' <= s[k] <= '9'
  {
    var digit := [('0' as int + n % 10) as char];
    if n < 10 then digit else Decimal(n / 10) + digit
  }

  function IntegerText(i: int): string {
    if i < 0 then "-" + Decimal(-i) else Decimal(i)
  }

  function ValueText(v: Value): string {
    match v
    case Null => "null"
    case Integer(i) => IntegerText(i)
    case Real(text) => text
    case Text(s) => Quoted(s)
  }

  function PairText(p: (string, Value)): string {
    "[" + (Quoted(p.0) + ("," + (ValueText(p.1) + "]")))
  }

  function PairsText(pairs: Pairs): string {
    if pairs == [] then ""
    else PairText(pairs[0]) + ((if |pairs| > 1 then "," else "") + PairsText(pairs[1..]))
  }

  function Serialize(pairs: Pairs): string {
    "[" + (PairsText(pairs) + "]")
  }

  // ------------------------------------------------------------------ reading it back

  // Equal texts with parts of equal length have equal parts.
  lemma SameSplit(a: string, x: string, b: string, y: string)
    requires a + x == b + y && |a| == |b|
    ensures a == b && x == y
  {
    assert (a + x)[..|a|] == a && (b + y)[..|b|] == b;
    assert (a + x)[|a|..] == x && (b + y)[|b|..] == y;
  }

  // Text up to the first separator is determined by the whole.
  lemma SplitAt(separator: char, a: string, b: string, c: string, d: string)
    requires a + ([separator] + b) == c + ([separator] + d)
    requires separator !in a && separator !in c
    ensures a == c && b == d
  {
    var x, y := a + ([separator] + b), c + ([separator] + d);
    assert x[|a|] == separator && y[|c|] == separator;
    assert forall k | 0 <= k < |a| :: x[k] == a[k] && a[k] in a;
    assert forall k | 0 <= k < |c| :: y[k] == c[k] && c[k] in c;
    assert |a| == |c|;
    SameSplit(a, [separator] + b, c, [separator] + d);
    SameSplit([separator], b, [separator], d);
  }

  lemma DigitInjective(d: nat, e: nat)
    requires d < 16 && e < 16 && Digit(d) == Digit(e)
    ensures d == e
  {
  }

  lemma Hex4Injective(v: nat, w: nat)
    requires v < 0x10000 && w < 0x10000 && Hex4(v) == Hex4(w)
    ensures v == w
  {
    var a, b := Hex4(v), Hex4(w);
    assert a[0] == b[0] && a[1] == b[1] && a[2] == b[2] && a[3] == b[3];
    DigitInjective(v / 0x1000, w / 0x1000);
    DigitInjective(v / 0x100 % 0x10, w / 0x100 % 0x10);
    DigitInjective(v / 0x10 % 0x10, w / 0x10 % 0x10);
    DigitInjective(v % 0x10, w % 0x10);
    HexDigits(v);
    HexDigits(w);
  }

  lemma HexDigits(v: nat)
    ensures v == 0x1000 * (v / 0x1000) + 0x100 * (v / 0x100 % 0x10) + 0x10 * (v / 0x10 % 0x10) + v % 0x10
  {
    assert v / 0x10 == 0x10 * (v / 0x100) + v / 0x10 % 0x10;
    assert v / 0x100 == 0x10 * (v / 0x1000) + v / 0x100 % 0x10;
  }

  lemma UnitInjective(v: nat, x: string, w: nat, y: string)
    requires v < 0x10000 && w < 0x10000 && Unit(v) + x == Unit(w) + y
    ensures v == w && x == y
  {
    SameSplit(Unit(v), x, Unit(w), y);
    SameSplit("\\u", Hex4(v), "\\u", Hex4(w));
    Hex4Injective(v, w);
  }

  // The first characters of an escape tell its kind.
  predicate IsLiteral(c: char) {
    ShortEscape(c) == "" && ' ' <= c <= '~'
  }

  lemma EscapeStarts(c: char)
    ensures Escape(c)[0] != '"'
    ensures IsLiteral(c) ==> Escape(c) == [c] && c != '\\'
    ensures !IsLiteral(c) ==> |Escape(c)| >= 2 && Escape(c)[0] == '\\'
    ensures ShortEscape(c) != "" ==> Escape(c) == ShortEscape(c) && |Escape(c)| == 2 && Escape(c)[1] != 'u'
    ensures !IsLiteral(c) && ShortEscape(c) == "" ==> Escape(c)[1] == 'u'
  {
  }

  lemma ShortEscapeInjective(c: char, d: char)
    requires ShortEscape(c) == ShortEscape(d) != ""
    ensures c == d
  {
    assert ShortEscape(c)[1] == ShortEscape(d)[1];
  }

  lemma EscapeInjective(c: char, x: string, d: char, y: string)
    requires Escape(c) + x == Escape(d) + y
    ensures c == d && x == y
  {
    EscapeStarts(c);
    EscapeStarts(d);
    var z := Escape(c) + x;
    assert z[0] == Escape(c)[0] == Escape(d)[0];
    if IsLiteral(c) {
      SameSplit([c], x, [d], y);
    } else {
      assert z[1] == Escape(c)[1] == Escape(d)[1];
      if ShortEscape(c) != "" {
        SameSplit(Escape(c), x, Escape(d), y);
        ShortEscapeInjective(c, d);
      } else {
        UnitsInjective(c, x, d, y);
      }
    }
  }

  // The first of the units an unprintable character is written in, and the text of the rest.
  function FirstUnit(c: char): (v: nat)
    ensures v < 0x10000
  {
    if c as int < 0x10000 then c as int else 0xD800 + (c as int - 0x10000) / 0x400
  }

  function OtherUnits(c: char): string {
    if c as int < 0x10000 then "" else Unit(0xDC00 + (c as int - 0x10000) % 0x400)
  }

  lemma EscapeInUnits(c: char, x: string)
    requires !IsLiteral(c) && ShortEscape(c) == ""
    ensures Escape(c) + x == Unit(FirstUnit(c)) + (OtherUnits(c) + x)
  {
    hide Unit;
    if c as int < 0x10000 {
      assert "" + x == x;
    }
  }

  // No character has the number of a surrogate unit, so the first unit tells which case it is.
  lemma UnitsInjective(c: char, x: string, d: char, y: string)
    requires !IsLiteral(c) && ShortEscape(c) == "" && !IsLiteral(d) && ShortEscape(d) == ""
    requires Escape(c) + x == Escape(d) + y
    ensures c == d && x == y
  {
    EscapeInUnits(c, x);
    EscapeInUnits(d, y);
    hide Unit, Escape, ShortEscape, IsLiteral;
    UnitInjective(FirstUnit(c), OtherUnits(c) + x, FirstUnit(d), OtherUnits(d) + y);
    if c as int >= 0x10000 {
      UnitInjective(0xDC00 + (c as int - 0x10000) % 0x400, x, 0xDC00 + (d as int - 0x10000) % 0x400, y);
      assert c as int == d as int;
    } else {
      assert "" + x == x && "" + y == y;
    }
  }

  lemma Associate(a: string, b: string, c: string)
    ensures (a + b) + c == a + (b + c)
    ensures a != "" ==> (a + b)[0] == a[0]
  {
  }

  // A quotation mark ends the text of a string and starts no escape.
  lemma BodyStarts(s: string, x: string)
    ensures (Body(s) + ("\"" + x))[0] == '"' <==> s == ""
    ensures s != "" ==> Body(s) + ("\"" + x) == Escape(s[0]) + (Body(s[1..]) + ("\"" + x))
    ensures s == "" ==> Body(s) + ("\"" + x) == "\"" + x
  {
    if s != "" {
      var e, rest := Escape(s[0]), Body(s[1..]);
      EscapeStarts(s[0]);
      assert Body(s) == e + rest;
      hide Escape, Body;
      Associate(e, rest, "\"" + x);
      Associate(e, rest + ("\"" + x), "");
    }
  }

  lemma {:induction false} BodyInjective(s: string, x: string, t: string, y: string)
    requires Body(s) + ("\"" + x) == Body(t) + ("\"" + y)
    ensures s == t && x == y
  {
    BodyStarts(s, x);
    BodyStarts(t, y);
    hide Body, Escape;
    if s == "" {
      SameSplit("\"", x, "\"", y);
    } else {
      EscapeInjective(s[0], Body(s[1..]) + ("\"" + x), t[0], Body(t[1..]) + ("\"" + y));
      BodyInjective(s[1..], x, t[1..], y);
      assert s == [s[0]] + s[1..] && t == [t[0]] + t[1..];
    }
  }

  lemma QuotedInjective(s: string, x: string, t: string, y: string)
    requires Quoted(s) + x == Quoted(t) + y
    ensures s == t && x == y
  {
    assert Quoted(s) + x == "\"" + (Body(s) + ("\"" + x));
    assert Quoted(t) + y == "\"" + (Body(t) + ("\"" + y));
    SameSplit("\"", Body(s) + ("\"" + x), "\"", Body(t) + ("\"" + y));
    BodyInjective(s, x, t, y);
  }

  lemma {:induction false} DecimalInjective(a: nat, b: nat)
    requires Decimal(a) == Decimal(b)
    ensures a == b
  {
    var x, y := Decimal(a), Decimal(b);
    assert x[|x| - 1] == ('0' as int + a % 10) as char;
    assert y[|y| - 1] == ('0' as int + b % 10) as char;
    assert a % 10 == b % 10;
    if a >= 10 && b >= 10 {
      assert x[..|x| - 1] == Decimal(a / 10) && y[..|y| - 1] == Decimal(b / 10);
      DecimalInjective(a / 10, b / 10);
    }
  }

  lemma IntegerTextInjective(i: int, j: int)
    requires IntegerText(i) == IntegerText(j)
    ensures i == j
  {
    var x, y := IntegerText(i), IntegerText(j);
    assert x[0] == y[0];
    if i < 0 {
      SameSplit("-", Decimal(-i), "-", Decimal(-j));
      DecimalInjective(-i, -j);
    } else {
      DecimalInjective(i, j);
    }
  }

  lemma IntegerTextCharacters(i: int)
    ensures forall c | c in IntegerText(i) :: IsIntegerChar(c)
  {
    var digits := Decimal(if i < 0 then -i else i);
    assert forall c | c in digits :: '0' <= c <= '9';
  }

  lemma ValueTextStarts(v: Value)
    ensures ValueText(v) != "" && (ValueText(v)[0] == '"' <==> v.Text?)
    ensures !v.Text? ==> ']' !in ValueText(v)
  {
    if v.Integer? {
      IntegerTextCharacters(v.i);
      hide IntegerText;
    }
    assert v.Real? ==> v.text[0] in v.text;
  }

  lemma PlainValueInjective(v: Value, w: Value)
    requires !v.Text? && !w.Text? && ValueText(v) == ValueText(w)
    ensures v == w
  {
    match v {
      case Null =>
        assert 'u' in ValueText(v) by {
          assert ValueText(v)[1] == 'u';
        }
        PlainCharacters(w);
      case Integer(i) =>
        PlainCharacters(v);
        PlainCharacters(w);
        if w.Integer? {
          IntegerTextInjective(i, w.i);
        }
      case Real(_) =>
        PlainCharacters(v);
        PlainCharacters(w);
    }
  }

  // The characters that tell null, integers and reals apart.
  lemma PlainCharacters(v: Value)
    ensures v.Null? ==> 'u' in ValueText(v)
    ensures v.Integer? ==> forall c | c in ValueText(v) :: IsIntegerChar(c)
    ensures v.Real? ==> 'u' !in ValueText(v) && exists c :: c in ValueText(v) && IsRealChar(c)
  {
    if v.Integer? {
      IntegerTextCharacters(v.i);
    }
    if v.Null? {
      assert ValueText(v)[1] == 'u';
    }
  }

  lemma ValueInjective(v: Value, x: string, w: Value, y: string)
    requires ValueText(v) + ("]" + x) == ValueText(w) + ("]" + y)
    ensures v == w && x == y
  {
    ValueTextStarts(v);
    ValueTextStarts(w);
    assert (ValueText(v) + ("]" + x))[0] == ValueText(v)[0] && (ValueText(w) + ("]" + y))[0] == ValueText(w)[0];
    if v.Text? {
      QuotedInjective(v.s, "]" + x, w.s, "]" + y);
      SameSplit("]", x, "]", y);
    } else {
      SplitAt(']', ValueText(v), x, ValueText(w), y);
      PlainValueInjective(v, w);
    }
  }

  lemma PairStarts(p: (string, Value), x: string)
    ensures PairText(p) + x == "[" + (Quoted(p.0) + ("," + (ValueText(p.1) + ("]" + x))))
  {
    var name, value := Quoted(p.0), ValueText(p.1);
    assert PairText(p) == "[" + (name + ("," + (value + "]")));
    hide *;
    assert ("[" + (name + ("," + (value + "]")))) + x == "[" + (name + ("," + (value + ("]" + x))));
  }

  lemma PairInjective(p: (string, Value), x: string, q: (string, Value), y: string)
    requires PairText(p) + x == PairText(q) + y
    ensures p == q && x == y
  {
    hide PairText, Quoted, ValueText;
    PairStarts(p, x);
    PairStarts(q, y);
    var value, value' := ValueText(p.1) + ("]" + x), ValueText(q.1) + ("]" + y);
    SameSplit("[", Quoted(p.0) + ("," + value), "[", Quoted(q.0) + ("," + value'));
    QuotedInjective(p.0, "," + value, q.0, "," + value');
    SameSplit(",", value, ",", value');
    ValueInjective(p.1, x, q.1, y);
  }

  function RestText(rest: Pairs): string {
    if rest == [] then "" else "," + PairsText(rest)
  }

  lemma PairsStart(a: Pairs)
    ensures (PairsText(a) + "]")[0] == ']' <==> a == []
    ensures a != [] ==> PairsText(a) + "]" == PairText(a[0]) + (RestText(a[1..]) + "]")
    ensures (RestText(a) + "]")[0] == ']' <==> a == []
    ensures a != [] ==> RestText(a) + "]" == "," + (PairsText(a) + "]")
  {
    if a != [] {
      assert PairText(a[0])[0] == '[';
      hide PairText;
      assert |a| == 1 ==> a[1..] == [];
    }
  }

  lemma {:induction false} PairsInjective(a: Pairs, b: Pairs)
    requires PairsText(a) + "]" == PairsText(b) + "]"
    ensures a == b
  {
    PairsStart(a);
    PairsStart(b);
    hide PairsText, RestText, PairText;
    if a != [] {
      PairInjective(a[0], RestText(a[1..]) + "]", b[0], RestText(b[1..]) + "]");
      PairsStart(a[1..]);
      PairsStart(b[1..]);
      if a[1..] != [] {
        SameSplit(",", PairsText(a[1..]) + "]", ",", PairsText(b[1..]) + "]");
        PairsInjective(a[1..], b[1..]);
      }
      assert a == [a[0]] + a[1..] && b == [b[0]] + b[1..];
    }
  }

  // The serialization determines every name and value.
  lemma SerializeInjective(a: Pairs, b: Pairs)
    requires Serialize(a) == Serialize(b)
    ensures a == b
  {
    SameSplit("[", PairsText(a) + "]", "[", PairsText(b) + "]");
    PairsInjective(a, b);
  }

  // What a decimal text stands for, read from the left.
  function DecimalValue(s: string): int {
    if s == "" then 0 else 10 * DecimalValue(s[..|s| - 1]) + (s[|s| - 1] as int - '0' as int)
  }

  lemma {:induction false} DecimalReadsBack(n: nat)
    ensures DecimalValue(Decimal(n)) == n
  {
    var s := Decimal(n);
    assert s[|s| - 1] == ('0' as int + n % 10) as char;
    if n < 10 {
      assert s[..0] == "";
    } else {
      assert s[..|s| - 1] == Decimal(n / 10);
      DecimalReadsBack(n / 10);
    }
  }

  // What a string literal stands for, as section 7 of RFC 8259 reads it: the first character of
  // the rest and the length of its spelling, two code units making one character.
  function HexValue(c: char): int {
    if '0' <= c <= '9' then c as int - '0' as int
    else if 'a' <= c <= 'f' then c as int - 'a' as int + 10
    else 0
  }

  function UnitValue(s: string): int
    requires |s| >= 6
  {
    HexValue(s[2]) * 0x1000 + HexValue(s[3]) * 0x100 + HexValue(s[4]) * 0x10 + HexValue(s[5])
  }

  predicate IsUnit(s: string) {
    |s| >= 6 && s[0] == '\\' && s[1] == 'u'
  }

  predicate IsPair(s: string) {
    IsUnit(s) && 0xD800 <= UnitValue(s) < 0xDC00 && IsUnit(s[6..])
  }

  function FirstLength(s: string): (n: nat)
    requires s != ""
    ensures 1 <= n <= |s|
  {
    if IsPair(s) then 12 else if IsUnit(s) then 6 else if s[0] == '\\' && |s| >= 2 then 2 else 1
  }

  function FirstCode(s: string): int
    requires s != ""
  {
    if IsPair(s) then 0x10000 + (UnitValue(s) - 0xD800) * 0x400 + (UnitValue(s[6..]) - 0xDC00)
    else if IsUnit(s) then UnitValue(s)
    else if s[0] == '\\' && |s| >= 2 then
      match s[1]
      case 'n' => 10
      case 'r' => 13
      case 't' => 9
      case 'f' => 12
      case 'b' => 8
      case other => other as int
    else s[0] as int
  }

  function ReadBody(s: string): seq<int>
    decreases |s|
  {
    if s == "" || s[0] == '"' then [] else [FirstCode(s)] + ReadBody(s[FirstLength(s)..])
  }

  function Codes(s: string): seq<int> {
    if s == "" then [] else [s[0] as int] + Codes(s[1..])
  }

  lemma UnitReadsBack(v: nat, x: string)
    requires v < 0x10000
    ensures IsUnit(Unit(v) + x) && UnitValue(Unit(v) + x) == v && (Unit(v) + x)[6..] == x
  {
    HexDigits(v);
    DigitReadsBack(v / 0x1000);
    DigitReadsBack(v / 0x100 % 0x10);
    DigitReadsBack(v / 0x10 % 0x10);
    DigitReadsBack(v % 0x10);
    hide Digit, HexValue;
  }

  lemma DigitReadsBack(d: nat)
    requires d < 16
    ensures HexValue(Digit(d)) == d
  {
  }

  lemma EscapeReadsBack(c: char, x: string)
    ensures Escape(c)[0] != '"'
    ensures FirstLength(Escape(c) + x) == |Escape(c)| && FirstCode(Escape(c) + x) == c as int
  {
    var v := c as int;
    if ShortEscape(c) == "" && !(' ' <= c <= '~') {
      if v < 0x10000 {
        UnitReadsBack(v, x);
      } else {
        var high, low := 0xD800 + (v - 0x10000) / 0x400, 0xDC00 + (v - 0x10000) % 0x400;
        UnitReadsBack(low, x);
        UnitReadsBack(high, Unit(low) + x);
        Associate(Unit(high), Unit(low), x);
      }
    }
  }

  // A quoted string read back is the string, character by character.
  lemma {:induction false} QuotedReadsBack(s: string)
    ensures ReadBody(Body(s) + "\"") == Codes(s)
  {
    if s != "" {
      var rest := Body(s[1..]) + "\"";
      var e := Escape(s[0]);
      EscapeReadsBack(s[0], rest);
      Associate(e, Body(s[1..]), "\"");
      assert (e + rest)[|e|..] == rest;
      QuotedReadsBack(s[1..]);
    } else {
      assert Body(s) + "\"" == "\"";
    }
  }

  // The text of one array and of its pairs: a negative number, and a string with both kinds of
  // escape; below it a null.
  lemma SerializeExample()
    ensures Serialize([("a", Integer(-7)), ("c", Text("x\"\n"))]) == "[[\"a\",-7],[\"c\",\"x\\\"\\n\"]]"
  {
    hide PairText, PairsText;
    var a, c := ("a", Integer(-7)), ("c", Text("x\"\n"));
    IntegerPairExample();
    TextPairExample();
    PairsStep(a, [c]);
    PairsStep(c, []);
    assert [a] + [c] == [a, c] && [c] + [] == [c];
  }

  lemma IntegerPairExample()
    ensures PairText(("a", Integer(-7))) == "[\"a\",-7]"
  {
    BodyExamples();
    assert Decimal(7) == "7";
    hide Body, Decimal;
  }

  lemma NullPairExample()
    ensures PairText(("b", Null)) == "[\"b\",null]"
  {
    BodyExamples();
    hide Body;
  }

  lemma TextPairExample()
    ensures PairText(("c", Text("x\"\n"))) == "[\"c\",\"x\\\"\\n\"]"
  {
    BodyExamples();
    hide Body;
  }

  lemma BodyExamples()
    ensures Body("a") == "a" && Body("b") == "b" && Body("c") == "c"
    ensures Body("x\"\n") == "x\\\"\\n"
  {
    OneCharacter('a');
    OneCharacter('b');
    OneCharacter('c');
    OneCharacter('\n');
    var rest := "\"\n";
    assert "x\"\n"[1..] == rest && rest[1..] == "\n";
    assert Body(rest) == Escape('"') + Body("\n");
    assert Body("x\"\n") == Escape('x') + Body(rest);
    hide Body;
  }

  lemma OneCharacter(c: char)
    ensures Body([c]) == Escape(c)
  {
    assert [c][1..] == "";
  }

  lemma PairsStep(p: (string, Value), rest: Pairs)
    ensures PairsText([p] + rest) == PairText(p) + ((if rest != [] then "," else "") + PairsText(rest))
    ensures PairsText([]) == ""
  {
    assert ([p] + rest)[1..] == rest;
  }
}
