/** Products and quotients, added up row by row. */
module Products {

  /** `k * n`, added up */
  function Times(k: nat, n: nat): nat {
    if k == 0 then 0 else Times(k - 1, n) + n
  }

  lemma {:induction false} TimesIsProduct(k: nat, n: nat)
    ensures Times(k, n) == k * n
  {
    if k > 0 {
      TimesIsProduct(k - 1, n);
    }
  }

  lemma {:induction false} TimesMonotone(j: nat, k: nat, n: nat)
    ensures j < k ==> Times(j, n) + n <= Times(k, n)
  {
    if j + 1 < k {
      TimesMonotone(j, k - 1, n);
    }
  }

  lemma {:induction false} TimesGrows(k: nat, m: nat, n: nat)
    requires m <= n
    ensures Times(k, m) <= Times(k, n)
  {
    if k > 0 {
      TimesGrows(k - 1, m, n);
    }
  }

  /** Every index below `Times(k, n)` lies in one of the `k` rows. */
  lemma {:induction false} RowOf(i: nat, k: nat, n: nat) returns (row: nat, column: nat)
    requires i < Times(k, n)
    ensures row < k && column < n && i == Times(row, n) + column
  {
    if i < Times(k - 1, n) {
      row, column := RowOf(i, k - 1, n);
    } else {
      row, column := k - 1, i - Times(k - 1, n);
    }
  }

  /** The largest multiple of `seqNum` not above `laserNum` is `laserNum` itself exactly when
      `seqNum` divides it. */
  lemma WholeRows(laserNum: nat, seqNum: nat)
    requires seqNum > 0
    ensures Times(seqNum, laserNum / seqNum) <= laserNum
    ensures Times(seqNum, laserNum / seqNum) == laserNum <==> laserNum % seqNum == 0
  {
    TimesIsProduct(seqNum, laserNum / seqNum);
    assert laserNum == seqNum * (laserNum / seqNum) + laserNum % seqNum;
  }

  lemma MoreBlocks(perBlock: nat, blocks: nat)
    ensures blocks == 0 ==> perBlock * blocks == 0
    ensures blocks == 1 ==> perBlock * blocks == perBlock
    ensures blocks >= 2 ==> perBlock * blocks >= 2 * perBlock
  {
    if blocks >= 2 {
      assert perBlock * blocks == 2 * perBlock + perBlock * (blocks - 2);
    }
  }
}
