/** Messages of the .NET runtime exceptions that the modelled code lets escape
    to its callers, where they end up in logs or in the JSON replies. */
module Runtime {
  /** `IndexOutOfRangeException`: an array index past the end. */
  const IndexOutOfRange := "Index was outside the bounds of the array."

  /** `InvalidOperationException` from LINQ `First`/`Single` on an empty sequence. */
  const NoElements := "Sequence contains no elements"

  /** `InvalidOperationException` from LINQ `Single` on more than one match. */
  const MoreThanOne := "Sequence contains more than one element"

  /** `ArgumentOutOfRangeException` with the default text. */
  const ArgumentOutOfRange := "Specified argument was out of the range of valid values."

  /** `ArgumentOutOfRangeException` from `Substring` with a negative length. */
  const NegativeLength := "Length cannot be less than zero."

  /** `NullReferenceException`. */
  const NullReference := "Object reference not set to an instance of an object."

  /** `ArgumentNullException`: a null argument to a library call. */
  const ArgumentNull := "Value cannot be null."

  /** `ArgumentException` from the .NET Framework `Path` methods on a path
      with a character `Path.GetInvalidPathChars` lists. */
  const IllegalPathChars := "Illegal characters in path."

  /** `ArgumentException` from `Dictionary.Add` on a key already present. */
  const DuplicateKey := "An item with the same key has already been added."
}
