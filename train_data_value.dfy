/** `TrainDataValue`: one (user, restaurant, rating) row of the training file. */
module TrainData {
  import opened Results
  import opened Text
  import opened Int32Text

  datatype TrainDataValue = TrainDataValue(userId: string, restaurantName: string, totalRating: int32)

  /**
   * Parse one line of the training file: split it at tab characters (commas
   * are ordinary characters), copy the first two fields verbatim and convert
   * the third with `Convert.ToInt32`. A line with fewer than three fields
   * throws on the missing index; fields after the third are never read.
   */
  function FromCsv(csvLine: string): (r: Result<TrainDataValue>)
    ensures r.Ok? ==> TAB !in r.value.userId && TAB !in r.value.restaurantName
  {
    var values := Split(csvLine, TAB);
    if |values| < 3 then Err(IndexOutOfRangeException)
    else
      match ToInt32(values[2])
      case Ok(n) => Ok(TrainDataValue(values[0], values[1], n))
      case Err(e) => Err(e)
  }

  /** The line for three fields: user, restaurant and rating text, tab separated. */
  function Line(user: string, restaurant: string, rating: string): string
  {
    user + [TAB] + restaurant + [TAB] + rating
  }

  /**
   * On a line of exactly three fields the user and restaurant come out
   * verbatim (empty ones included), and the outcome is that of converting
   * the third field.
   */
  lemma ThreeFields(user: string, restaurant: string, rating: string)
    requires TAB !in user && TAB !in restaurant && TAB !in rating
    ensures FromCsv(Line(user, restaurant, rating)) ==
      match ToInt32(rating)
      case Ok(n) => Ok(TrainDataValue(user, restaurant, n))
      case Err(e) => Err(e)
  {
    var rest := restaurant + [TAB] + rating;
    assert Line(user, restaurant, rating) == user + [TAB] + rest;
    SplitNoSeparator(restaurant, TAB);
    SplitNoSeparator(rating, TAB);
    SplitAppend(restaurant, rating, TAB);
    assert Split(rest, TAB) == [restaurant, rating];
    SplitNoSeparator(user, TAB);
    SplitAppend(user, rest, TAB);
    assert Split(Line(user, restaurant, rating), TAB) == [user, restaurant, rating];
  }

  /** A record written out as a line is read back unchanged. */
  lemma RoundTrip(v: TrainDataValue)
    requires TAB !in v.userId && TAB !in v.restaurantName
    ensures FromCsv(Line(v.userId, v.restaurantName, Decimal(v.totalRating as int))) == Ok(v)
  {
    var d := Decimal(v.totalRating as int);
    assert forall i :: 0 <= i < |d| ==> d[i] == '-' || IsDigit(d[i]);
    ThreeFields(v.userId, v.restaurantName, d);
    DecimalRoundTrip(v.totalRating);
  }

  /** A rating that is a well-formed integer outside Int32 overflows. */
  lemma RatingOverflow(user: string, restaurant: string, n: int)
    requires TAB !in user && TAB !in restaurant && !InInt32(n)
    ensures FromCsv(Line(user, restaurant, Decimal(n))) == Err(OverflowException)
  {
    var d := Decimal(n);
    assert forall i :: 0 <= i < |d| ==> d[i] == '-' || IsDigit(d[i]);
    ThreeFields(user, restaurant, d);
    DecimalOverflow(n);
  }

  /**
   * A rating field of the integer number style gives the record with its
   * value, or overflows when the value is outside Int32.
   */
  lemma WellFormedRating(user: string, restaurant: string, rating: NumberText)
    requires TAB !in user && TAB !in restaurant && TAB !in Render(rating)
    requires WellFormed(rating)
    ensures FromCsv(Line(user, restaurant, Render(rating))) ==
      if InInt32(ValueOf(rating)) then Ok(TrainDataValue(user, restaurant, ValueOf(rating) as int32))
      else Err(OverflowException)
  {
    ThreeFields(user, restaurant, Render(rating));
    WellFormedConverts(rating);
  }

  /** A rating field that is not of the integer number style is a format error. */
  lemma RatingNotAnInteger(user: string, restaurant: string, rating: string)
    requires TAB !in user && TAB !in restaurant && TAB !in rating
    requires forall t :: WellFormed(t) ==> Render(t) != rating
    ensures FromCsv(Line(user, restaurant, rating)) == Err(FormatException)
  {
    ThreeFields(user, restaurant, rating);
    ToInt32Characterised(rating);
  }

  /** A decimal point in the rating is a format error, not a truncation. */
  lemma FractionalRating(user: string, restaurant: string)
    requires TAB !in user && TAB !in restaurant
    ensures FromCsv(Line(user, restaurant, "4.5")) == Err(FormatException)
  {
    ThreeFields(user, restaurant, "4.5");
    NotIntegers();
  }

  /** A rating field with no digit, an empty one included, is a format error. */
  lemma RatingWithoutDigits(user: string, restaurant: string, rating: string)
    requires TAB !in user && TAB !in restaurant && TAB !in rating
    requires forall i :: 0 <= i < |rating| ==> !IsDigit(rating[i])
    ensures FromCsv(Line(user, restaurant, rating)) == Err(FormatException)
  {
    ThreeFields(user, restaurant, rating);
    NoDigitIsFormatError(rating);
  }

  /** The index error happens exactly when the line has fewer than two tabs. */
  lemma TooFewFields(csvLine: string)
    ensures FromCsv(csvLine) == Err(IndexOutOfRangeException) <==> Occurrences(csvLine, TAB) < 2
  {
  }

  /** Fields after the third do not change the outcome. */
  lemma ExtraFieldsIgnored(csvLine: string, rest: string)
    requires Occurrences(csvLine, TAB) >= 2
    ensures FromCsv(csvLine + [TAB] + rest) == FromCsv(csvLine)
  {
    SplitAppend(csvLine, rest, TAB);
  }

  /** Commas do not separate fields: a comma-separated row is one field. */
  lemma CommaIsNotASeparator()
    ensures FromCsv("U1077,The Grill,2") == Err(IndexOutOfRangeException)
  {
    var row := "U1077,The Grill,2";
    assert TAB !in row;
    SplitNoSeparator(row, TAB);
  }
}
