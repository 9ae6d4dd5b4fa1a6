/** The fields of the vehicle data record. */
module RecordTable {
  import opened CarData

  /** Frame width, signedness and storage of the i-th field in frame order. */
  function RecordField(i: nat): (f: Field)
    requires i < 50
    ensures ValidField(f)
  {
    match i
    case 0 | 22 => Field(25, false, 32)
    case 1 | 2 | 26 => Field(13, false, 16)
    case 3 | 4 => Field(15, true, 16)
    case 5 | 15 => Field(14, false, 16)
    case 6 | 7 | 8 | 12 => Field(16, true, 16)
    case 9 | 10 | 11 | 23 => Field(16, false, 16)
    case 13 | 14 | 20 | 21 | 25 | 29 | 30 | 31 | 34 | 35 | 36 | 37 | 38 | 39 | 40 | 41 | 42 => Field(8, false, 8)
    case 16 => Field(21, false, 32)
    case 17 => Field(7, false, 8)
    case 18 | 19 | 46 | 48 => Field(2, false, 8)
    case 24 => Field(24, false, 32)
    case 27 | 28 => Field(4, false, 8)
    case 32 | 33 => Field(31, true, 32)
    case 43 | 47 => Field(3, false, 8)
    case 44 => Field(5, false, 8)
    case 45 => Field(6, false, 8)
    case 49 => Field(1, false, 8)
  }

  function Record(): (table: seq<Field>)
    ensures |table| == 50 && ValidTable(table)
  {
    seq(50, i requires 0 <= i < 50 => RecordField(i))
  }
}
