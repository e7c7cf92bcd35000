/**
 * One row of internal-assessment marks: a subject a student took in a
 * semester, with the two internal marks recorded for it.
 */
module Marks {

  /**
   * A mark row.  The semester is whatever was stored (the course uses 1 to 6,
   * but nothing enforces it); the internal marks are decimal numbers.
   */
  datatype Mark = Mark(
    id: int,
    studentId: string,
    semester: int,
    subjectCode: string,
    subjectName: string,
    internal1: real,
    internal2: real)

  /**
   * The better of the two internal marks, the one every total is built
   * from.  On a tie the first internal is the one reported.
   */
  function BestOfTwo(m: Mark): (best: real)
    ensures best >= m.internal1 && best >= m.internal2
    ensures best == m.internal1 || best == m.internal2
  {
    if m.internal2 > m.internal1 then m.internal2 else m.internal1
  }
}
