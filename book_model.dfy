/**
 * The book record: four strings, assigned once from a list of fields and
 * never changed, and its one-line rendering.
 */
module BookModel {
  import Strings

  datatype Book = Book(firstName: string, lastName: string, title: string, date: string)

  /** The record's fields in canonical order: first name, last name, title, date. */
  function Fields(b: Book): (r: seq<string>)
    ensures |r| == 4
    ensures FromFields(r) == b
  {
    [b.firstName, b.lastName, b.title, b.date]
  }

  /**
   * `BookModel(data)`: the fields are taken by position, so the record is
   * the first four items of `data` (a shorter list fails with an index
   * error; items past the fourth are ignored).
   */
  function FromFields(data: seq<string>): (r: Book)
    requires |data| >= 4
    ensures r.firstName == data[0] && r.lastName == data[1] && r.title == data[2] && r.date == data[3]
  {
    Book(data[0], data[1], data[2], data[3])
  }

  /** The rendering of a record built from a list is its first four items joined by a comma and a space. */
  lemma RenderFromFields(data: seq<string>)
    requires |data| >= 4
    ensures Render(FromFields(data)) == Strings.Join(data[..4], ", ")
  {
    FieldsFromFields(data);
  }

  /** A record built from a list gives back the list's first four items as its fields. */
  lemma FieldsFromFields(data: seq<string>)
    requires |data| >= 4
    ensures Fields(FromFields(data)) == data[..4]
  {
  }

  /** `BookModel.__unicode__`: the four fields joined by a comma and a space. */
  function Render(b: Book): (r: string)
    ensures r == Strings.Join(Fields(b), ", ")
  {
    var f := Fields(b);
    assert Strings.Join(f[3..], ", ") == b.date by { assert f[3..] == [b.date]; }
    assert Strings.Join(f[2..], ", ") == b.title + ", " + b.date by { assert f[2..][1..] == f[3..]; }
    assert Strings.Join(f[1..], ", ") == b.lastName + ", " + b.title + ", " + b.date by { assert f[1..][1..] == f[2..]; }
    b.firstName + ", " + b.lastName + ", " + b.title + ", " + b.date
  }
}
