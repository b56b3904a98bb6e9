/** What the duty-cycle step throws. Each is a thrown string in index.js, except InvalidDate,
    which is the RangeError that `toISOString` raises on an invalid Date, and DateOutOfRange,
    which index.js never throws: it is the corrected date step's refusal to write a key with a
    six-digit year (see Rotation.NextDutyDate). */
module Failures {

  datatype Failure =
    | CannotSelect(n: nat, length: nat)   // selectRandom, index.js:37-39
    | NoHistory                           // index.js:54-56
    | InvalidTriagerData                  // index.js:61-63
    | UnknownTriager(name: string)        // index.js:67-69
    | InvalidDate(key: string)            // index.js:72-74, a key `new Date` cannot read
    | DateOutOfRange(key: string)         // corrected step only: the next date would need a six-digit year
}
