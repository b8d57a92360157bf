/**
 The keys of client/load_memcache.cc and client/gen_memcache.cc: zero-padded decimal ids of a
 fixed width.  Both programs print an id into a buffer of `width + 1` characters, so an id
 with too many digits loses the last ones.
 */
module Keys {
  import opened Common

  const NUL := '\0'

  function Digit(d: nat): char
    requires d < 10
  {
    "0123456789"[d]
  }

  function Decimal(n: nat): (s: string)
    ensures s != []
  {
    if n < 10 then [Digit(n)] else Decimal(n / 10) + [Digit(n % 10)]
  }

  function Zeros(k: nat): (s: string)
    ensures |s| == k
  {
    seq(k, _ => '0')
  }

  /** `snprintf(buf, width + 1, "%0<width>lu", n)`: padded to the width, then cut to it. */
  function Key(n: nat, width: nat): (s: string)
    ensures |s| == width
  {
    var d := Decimal(n);
    if |d| <= width then Zeros(width - |d|) + d else d[..width]
  }

  function Pow10(k: nat): (p: nat)
    ensures p > 0
  {
    if k == 0 then 1 else 10 * Pow10(k - 1)
  }

  // ---------- Reading a key back ----------

  function DigitValue(c: char): nat {
    if '0' <= c <= '9' then c as nat - '0' as nat else 0
  }

  function Value(s: string): nat {
    if s == [] then 0 else 10 * Value(s[..|s| - 1]) + DigitValue(s[|s| - 1])
  }

  lemma {:induction false} ValueOfPadded(k: nat, n: nat)
    ensures Value(Zeros(k) + Decimal(n)) == n
    decreases n, k
  {
    if n < 10 {
      ValueSnoc(Zeros(k), n);
      ValueOfZeros(k);
    } else {
      var front := Zeros(k) + Decimal(n / 10);
      assert Zeros(k) + Decimal(n) == front + [Digit(n % 10)];
      ValueSnoc(front, n % 10);
      ValueOfPadded(k, n / 10);
    }
  }

  lemma ValueSnoc(s: string, d: nat)
    requires d < 10
    ensures Value(s + [Digit(d)]) == 10 * Value(s) + d
  {
    assert (s + [Digit(d)])[..|s|] == s;
  }

  lemma {:induction false} ValueOfZeros(k: nat)
    ensures Value(Zeros(k)) == 0
    decreases k
  {
    if k > 0 {
      assert Zeros(k)[..k - 1] == Zeros(k - 1);
      ValueOfZeros(k - 1);
    }
  }

  lemma {:induction false} DecimalLength(n: nat, width: nat)
    requires width > 0
    ensures |Decimal(n)| <= width <==> n < Pow10(width)
    decreases width
  {
    if width == 1 {
      assert Pow10(1) == 10 * Pow10(0);
    } else if n < 10 {
      assert Pow10(width) >= 10 * Pow10(width - 1) >= 10;
    } else {
      DecimalLength(n / 10, width - 1);
    }
  }

  /** It has the asked width, and nothing but digits in it. */
  lemma KeyIsDigits(n: nat, width: nat)
    requires width > 0 && n < Pow10(width)
    ensures |Key(n, width)| == width && forall c <- Key(n, width) :: '0' <= c <= '9'
  {
    DecimalLength(n, width);
    DecimalIsDigits(n);
  }

  lemma {:induction false} DecimalIsDigits(n: nat)
    ensures forall c <- Decimal(n) :: '0' <= c <= '9'
  {
    if n >= 10 {
      DecimalIsDigits(n / 10);
    }
  }

  /** A key whose id fits in the width can be read back. */
  lemma KeyIsReadable(n: nat, width: nat)
    requires width > 0 && n < Pow10(width)
    ensures Value(Key(n, width)) == n
  {
    DecimalLength(n, width);
    ValueOfPadded(width - |Decimal(n)|, n);
  }

  lemma {:induction false} DecimalOfPow10(k: nat)
    ensures Decimal(Pow10(k)) == "1" + Zeros(k)
    decreases k
  {
    if k > 0 {
      DecimalOfPow10(k - 1);
      assert Pow10(k) / 10 == Pow10(k - 1) && Pow10(k) % 10 == 0;
      assert Zeros(k) == Zeros(k - 1) + ['0'];
    }
  }

  /** The first id that is too long collides with an earlier one. */
  lemma FirstCollision(width: nat)
    requires width > 0
    ensures Key(Pow10(width), width) == Key(Pow10(width - 1), width)
    ensures 0 < Pow10(width - 1) < Pow10(width)
  {
    DecimalOfPow10(width);
    DecimalOfPow10(width - 1);
    assert ("1" + Zeros(width))[..width] == "1" + Zeros(width - 1);
  }

  /** The keys of ids 1 to `last` are pairwise different exactly when the largest id fits in the width. */
  lemma KeysDistinctIffFit(last: nat, width: nat)
    requires width > 0
    ensures (forall i, j :: 1 <= i < j <= last ==> Key(i, width) != Key(j, width)) <==> last < Pow10(width)
  {
    if last < Pow10(width) {
      forall i, j | 1 <= i < j <= last
        ensures Key(i, width) != Key(j, width)
      {
        KeyIsReadable(i, width);
        KeyIsReadable(j, width);
      }
    } else {
      FirstCollision(width);
    }
  }

  /** The loader's own guard, on the truncated logarithm of the key count. */
  predicate LoaderGuard(keys: nat, width: nat) {
    keys < Pow10(width + 1)
  }

  /** The guard lets a power of ten through that is one digit too long. */
  lemma GuardIsTooWeak()
    ensures LoaderGuard(10, 1) && Key(10, 1) == Key(1, 1)
  {
    FirstCollision(1);
    assert Pow10(1) == 10 * Pow10(0) && Pow10(2) == 10 * Pow10(1);
  }

  // ---------- The generator's key table ----------

  /** Where the key of id `i + 1` starts in the table. */
  function Offset(i: nat, width: nat): nat {
    i * (width + 1)
  }

  lemma SlotsAreDisjoint(i: nat, j: nat, width: nat)
    requires i < j
    ensures Offset(i, width) + width + 1 <= Offset(j, width)
  {
    var k, w := j - i - 1, width + 1;
    assert k * w >= 0;
    assert j * w == (i + 1 + k) * w == i * w + w + k * w;
  }

  /** `snprintf` of an id into the table. */
  method PrintKey(table: array<char>, at: nat, id: nat, width: nat)
    requires at + width + 1 <= table.Length
    modifies table
    ensures table[..] == Overwrite(old(table[..]), at, Key(id, width) + [NUL])
  {
    var text := Key(id, width) + [NUL];
    forall k | 0 <= k < |text| {
      table[at + k] := text[k];
    }
  }

  ghost predicate Holds(table: seq<char>, i: nat, width: nat) {
    && Offset(i, width) + width + 1 <= |table|
    && table[Offset(i, width)..Offset(i, width) + width + 1] == Key(i + 1, width) + [NUL]
  }

  /** The loop of the constructor: one slot per record, for ids from 1. */
  method BuildTable(records: nat, width: nat) returns (table: array<char>)
    ensures fresh(table) && table.Length == Offset(records, width)
    ensures forall i :: 0 <= i < records ==> Holds(table[..], i, width)
  {
    table := new char[Offset(records, width)];
    for i := 1 to records + 1
      invariant forall k :: 0 <= k < i - 1 ==> Holds(table[..], k, width)
    {
      SlotsAreDisjoint(i - 1, records, width);
      ghost var before := table[..];
      PrintKey(table, Offset(i - 1, width), i, width);
      forall k | 0 <= k < i
        ensures Holds(table[..], k, width)
      {
        if k < i - 1 {
          SlotsAreDisjoint(k, i - 1, width);
          assert Holds(before, k, width);
        }
      }
    }
  }

  /** The key for a random 64-bit id; its length comes back in 16 bits. */
  method ChooseKey(table: array<char>, id: nat, records: nat, width: nat) returns (at: nat, n: nat)
    requires records > 0 && table.Length == Offset(records, width)
    requires forall i :: 0 <= i < records ==> Holds(table[..], i, width)
    ensures at + width < table.Length && n == width % 0x1_0000
    ensures table[at..at + width] == ChosenKey(id, records, width)
    ensures width > 0 && records < Pow10(width) ==> Value(table[at..at + width]) == id % records + 1
  {
    n := width % 0x1_0000;
    at := (id % records) * (width + 1);
    assert Holds(table[..], id % records, width);
    if width > 0 && records < Pow10(width) {
      RemainderOfSmall(id, records);
      KeyIsReadable(id % records + 1, width);
    }
    assert table[at..at + width] == table[..][at..at + width + 1][..width];
  }

  function ChosenKey(id: nat, records: nat, width: nat): string
    requires records > 0
  {
    Key(id % records + 1, width)
  }

  /** What a loader started at id 1 stores. */
  function StoredKeys(toload: nat, width: nat): (keys: seq<string>)
    ensures |keys| == toload
  {
    seq(toload, i requires 0 <= i < toload => Key(i + 1, width))
  }

  lemma RemainderOfSmall(id: nat, records: nat)
    requires records > 0
    ensures id % records < records && (id < records ==> id % records == id)
  {
  }

  lemma ChosenIsStored(id: nat, records: nat, toload: nat, width: nat)
    requires 0 < records <= toload
    ensures ChosenKey(id, records, width) in StoredKeys(toload, width)
  {
    RemainderOfSmall(id, records);
    assert StoredKeys(toload, width)[id % records] == ChosenKey(id, records, width);
  }

  lemma TooFewStored(records: nat, toload: nat, width: nat)
    requires toload < records < Pow10(width) && width > 0
    ensures ChosenKey(records - 1, records, width) !in StoredKeys(toload, width)
  {
    RemainderOfSmall(records - 1, records);
    KeyIsReadable(records, width);
    forall i | 0 <= i < toload
      ensures StoredKeys(toload, width)[i] != Key(records, width)
    {
      KeyIsReadable(i + 1, width);
    }
  }

  /** Every key the generator can choose for a 64-bit id was stored, exactly when the loader stored at
      least as many keys as there are records. */
  lemma ChosenKeysAreStoredIff(records: nat, toload: nat, width: nat)
    requires 0 < records < TWO_64
    requires records < Pow10(width) && width > 0
    ensures (forall id :: 0 <= id < TWO_64 ==>
               ChosenKey(id, records, width) in StoredKeys(toload, width))
            <==> toload >= records
  {
    if toload >= records {
      forall id | 0 <= id < TWO_64
        ensures ChosenKey(id, records, width) in StoredKeys(toload, width)
      {
        ChosenIsStored(id, records, toload, width);
      }
    } else {
      TooFewStored(records, toload, width);
    }
  }
}
