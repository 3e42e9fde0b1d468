# Verified model of the RcppSimdJson simplifier

RcppSimdJson turns parsed JSON into R objects. For each array it gathers evidence about element types, chooses a
shape (data frame, matrix, atomic vector or list) and a type, under one of three type policies and four int64
options, and fills the result in place. This project models that code in Dafny and proves what it computes.

`Simplification.dfy` says what the result should be in the simplest way: the shape of every array by its elements,
then one conversion for each element, with one key lookup for each cell of a data frame. The methods follow the
code: typed fast paths, mixed paths, running column-major offsets, the two passes over the rows of a data frame with
the schema's positional guess, linear scan, hash index and regular-rows shortcut. Each method is proved to return
exactly the prescribed value, or the embedded-nul error exactly where the code throws it, for all documents whose sizes
the parser can count. On top of that stand the properties a caller relies on: every result has the shape, type and size
that the document and the options decide and is well-formed throughout, access is preserved and nothing is invented,
policies are monotone, NA means missing, narrowing is exact, and each promise that the code keeps only in part has its
exact condition.

| file | part of the program |
|---|---|
| Values.dfy | JSON elements, R values, policies, errors |
| Text.dfy | numbers as text, zero trimming, integers as doubles |
| TypeDoctor.dfy | `Type_Doctor` |
| Scalar.dfy | scalar conversions |
| Vector.dfy, Matrix.dfy | vector and matrix builders, and their dispatch |
| DataFrame.dfy | `Column_Schema` and the diagnosis of data frames |
| Simplification.dfy | the reference for all shapes |
| Simplifier.dfy | the recursive simplifier and the data frame builder |
| Policies.dfy | what the policies and int64 options mean for an array |
| Fidelity.dfy | which values are kept, rounded or lost, and which read as missing |
| Access.dfy | reading results back along paths |
| Shapes.dfy | the shape, type and cells of every result |
| Counts.dfy | where the counts of children saturate |
| Nuls.dfy | when a call fails |
| CharsxpCache.dfy, InputBuffer.dfy | the string cache and the input buffer |

`dafny verify dfyconfig.toml` checks everything.

Where the code does less than one might expect, it is followed, and the exact condition is proved:

- Data frame columns take their kind from the common R type without asking whether they are vectorizable. Under
  `strict` and `ints_as_dbls` such a column can lose values. `Fidelity.KeepsAll` and `Fidelity.Keeps` say, by policy,
  int64 option and the R types seen, which columns and which values are kept; `ColumnDenotes` and `KeptExactly` prove
  it, and `StrictColumnCuts` and `NumbersColumnLosesText` show losses.
- Numbers are kept up to rounding only: a double in a character vector has six places, so that [1e-7, "a"] becomes
  "0.0" and "a" (`SmallDoubleTextIsZero`), and an integer among doubles becomes the nearest one. `SameExactly` says
  exactly when a value is unchanged.
- Unless anything goes, an array of arrays whose first row is all null is not a matrix: `MatrixMeans` has the exact
  condition, `MatrixNeedsFirstValue` an instance.
- The manual says of the policy `numbers` that arrays containing only numbers always become atomic vectors. That
  fails for an integer beyond the signed 64-bit range next to another number: `NumbersCanStayAList` is an instance,
  `NumbersVectorize` the exact condition.
- The integer64 value -2^63 is NA_INTEGER64. It is the one scalar other than null that reads as missing:
  `AtomicMissing`, `MissingMeansNull` and `FrameCellMissing` say when, `SmallestIntegerIsMissing` shows it. In lossy
  columns more values do; `MissingAmong` and `MissingExactly` say which.
- The parser counts children in 24 bits (inst/include/simdjson.h:6057-6058 and 8144-8145, and lines 21759-21762 of
  inst/include/simdjson.cpp), so a container of more than 16777215 reports 16777215; the loops, however, visit every
  child. The array of 16777216 ones needs one entry more than the code allocates (`LongArrayOverruns`), and long rows of
  different lengths pass for equal. `FillFits`, `MatrixFits` and `SameCounts` have the exact limits, `CountsSuffice` the
  exact condition on a document. The methods allocate the reported sizes and require that condition. What is proved of
  results below is proved of the prescribed values of all documents; they are what the code returns for the documents
  that meet it.

## Model

| member | source | states |
|---|---|---|
| Text.IntTextRoundTrip | inst/include/RcppSimdJson/deserialize/scalar.hpp:69 | The decimal text of an integer, read back, is that integer. |
| Text.IntTextIsDecimal | inst/include/RcppSimdJson/deserialize/scalar.hpp:69 | That text is decimal digits without leading zeros, after a minus sign for negative integers only. |
| Text.TextsOfNumbers | inst/include/RcppSimdJson/deserialize/scalar.hpp:93-113 | -120 becomes "-120", and -1.5 becomes "-1.50". |
| Text.TrimKeepsNumber | inst/include/RcppSimdJson/deserialize/scalar.hpp:104-111 | Trimming trailing zeros keeps everything up to the point and the number after it, leaves at least one digit there and at most one trailing zero, exactly one if it drops any, and does nothing the second time. |
| Text.DoubleTextDenotes | inst/include/RcppSimdJson/deserialize/scalar.hpp:93-113 | The text of any double denotes exactly its magnitude rounded to six places, with at most six digits after the point, and with exactly one trailing zero if there are fewer. |
| Text.DoubleTextReads | inst/include/RcppSimdJson/deserialize/scalar.hpp:93-113 | The text of any double reads as its sign and the nearest number of millionths, the even one on a tie. |
| Text.QuotientIsNearest | inst/include/RcppSimdJson/deserialize/scalar.hpp:73-76 | Rounding to a unit gives a nearest multiple, the even one on a tie. |
| Text.ToDoubleNearest | inst/include/RcppSimdJson/deserialize/scalar.hpp:73-76 | Integers of up to 53 bits convert to doubles exactly; larger ones are off by half a last place at most, which is a power of two. |
| Text.ToDoubleExactly | inst/include/RcppSimdJson/deserialize/scalar.hpp:73-76 | An integer converts exactly if and only if it is a multiple of its last place. |
| Text.DoubleTextExactly | inst/include/RcppSimdJson/deserialize/scalar.hpp:93-113 | The text of a double reads back as the very same number if and only if the double is a multiple of a millionth. |
| TypeDoctors.TypeDoctor.Empty | inst/include/RcppSimdJson/deserialize/Type_Doctor.hpp:42 | A new doctor has seen nothing. |
| TypeDoctors.TypeDoctor.constructor | inst/include/RcppSimdJson/deserialize/Type_Doctor.hpp:60-119 | Diagnosing an array sets the flags of exactly the types that occur in it. |
| TypeDoctors.TypeDoctor.AddElement | inst/include/RcppSimdJson/deserialize/Type_Doctor.hpp:265-323 | One more element raises its element type and its R type, 32-bit or 64-bit by value and option, and no other flag. |
| TypeDoctors.TypeDoctor.Update | inst/include/RcppSimdJson/deserialize/Type_Doctor.hpp:326-355 | Merging joins the flags of two doctors, leaving out the 32-bit flag under `always`. |
| TypeDoctors.AddIsAppend | inst/include/RcppSimdJson/deserialize/Type_Doctor.hpp:265-323 | Adding an element to the doctor of an array gives the doctor of the longer array. |
| TypeDoctors.MergeIsConcat | inst/include/RcppSimdJson/deserialize/Type_Doctor.hpp:326-355 | Merging the doctors of two arrays gives the doctor of their concatenation, under `always` too. |
| TypeDoctors.OrderIrrelevant | inst/include/RcppSimdJson/deserialize/Type_Doctor.hpp:60-119 | A diagnosis does not depend on order or repetition. |
| Policies.HomogeneousMeans | inst/include/RcppSimdJson/deserialize/Type_Doctor.hpp:122-144 | Homogeneous means: some element is not null, and all that are not null have one JSON type. |
| Policies.VectorizableMeans | inst/include/RcppSimdJson/deserialize/Type_Doctor.hpp:206-244 | Vectorizable means: only scalars under `anything_goes`; under the other policies also one value that is not null and one R type (`strict`) or number family (`ints_as_dbls`) for all of them. |
| Policies.NumbersVectorize | inst/include/RcppSimdJson/deserialize/Type_Doctor.hpp:233-237 | Under `ints_as_dbls` a non-empty array of numbers is vectorizable if and only if all of them or none of them are integers beyond the signed 64-bit range. |
| Policies.NumbersCanStayAList | inst/include/RcppSimdJson/deserialize/Type_Doctor.hpp:233-237 | The array [1, 9223372036854775808] holds only numbers and becomes a list under `ints_as_dbls`. |
| Policies.CommonIsHighest | inst/include/RcppSimdJson/deserialize/Type_Doctor.hpp:147-203 | The common R type of a vectorizable array occurs in it, and no type that occurs ranks above it. |
| Policies.Int64OptionHonoured | inst/include/RcppSimdJson/deserialize/Type_Doctor.hpp:85-97 | Integers and nulls become 32-bit exactly if all fit and the option is not `always`; otherwise the int64 option picks the vector type; only `strict` refuses to mix the widths. |
| Shapes.CommonIsHeaviest | inst/include/RcppSimdJson/deserialize/Type_Doctor.hpp:147-203 | Under every policy, vectorizable or not, the common R type was seen, or nothing but null was, and it outweighs all other types seen. |
| Shapes.TypeDecided | inst/include/RcppSimdJson/deserialize/Type_Doctor.hpp:147-203 | Scalars that share a vector, matrix or column take the vector type that the heaviest of them has on its own; the weights depend on the policy alone. |
| Policies.LooserFlags | inst/include/RcppSimdJson/deserialize/Type_Doctor.hpp:147-244 | What is vectorizable under a stricter policy is so under a looser one, with the same common R type. |
| Policies.LooserPolicySameValue | inst/include/RcppSimdJson/deserialize/simplify.hpp:30-60 | Where a stricter policy yields an atomic vector or a matrix, a looser one yields the identical value. |
| Scalars.NarrowingExact | inst/include/RcppSimdJson/utils.hpp:56-60 | The cast to a 32-bit int keeps the low 32 bits, and keeps the value and avoids the bit pattern of NA exactly for castable integers. |
| Scalars.GetScalar | inst/include/RcppSimdJson/deserialize/scalar.hpp:23-30 | A typed conversion, applied where its type is known, agrees with the conversion that looks at the type. |
| Shapes.TruthValues | inst/include/RcppSimdJson/deserialize/scalar.hpp:36-62 | True and false are truth values, 1 and 0, or TRUE and FALSE, by the type of the vector. |
| Values.MadeExactly | inst/include/RcppSimdJson/common.hpp:175-180 | Making a string is refused exactly if one of its bytes is zero, and otherwise gives the very bytes. |
| Vectors.Convert | inst/include/RcppSimdJson/deserialize/scalar.hpp:138-207 | Converts one element by its own type, and fails exactly if its string has an embedded nul. |
| Vectors.ConvertTyped | inst/include/RcppSimdJson/deserialize/scalar.hpp:23-132 | The typed conversion yields what `Convert` would, and is only applied to elements of its type or to nulls it checks for. |
| Fidelity.ConversionDenotes | inst/include/RcppSimdJson/deserialize/scalar.hpp:138-207 | A conversion stands for its element, up to rounding, exactly if the vector type can hold the element's R type. |
| Fidelity.SameExactly | inst/include/RcppSimdJson/deserialize/scalar.hpp:72-113 | A cell has exactly its element's value if and only if it stands for it up to rounding, and no double had to become a text, nor an integer a double, that cannot express it. |
| Fidelity.SmallDoubleTextIsZero | inst/include/RcppSimdJson/deserialize/scalar.hpp:93-113 | Rounding happens: under `anything_goes` the array [1e-7, "a"] becomes "0.0" and "a". |
| Fidelity.PickedTypeHolds | inst/include/RcppSimdJson/deserialize/Type_Doctor.hpp:147-203 | By policy, int64 option and the set of R types seen: which of these types the common type can hold. |
| Fidelity.KeptAmong | inst/include/RcppSimdJson/deserialize/Type_Doctor.hpp:147-203 | A scalar among others is kept, up to rounding, if and only if the policy keeps its type among the types seen; and exactly if and only if it needs no rounding besides. |
| Fidelity.LoneDenotes | inst/include/RcppSimdJson/utils.hpp:81-105 | A scalar on its own becomes a vector of length one that stands for it, exactly so unless a wide integer becomes a double that cannot express it; it is a 64-bit integer as the option says. |
| Shapes.LoneIsArrayOfOne | inst/include/RcppSimdJson/utils.hpp:81-105 | A scalar on its own, null apart, becomes what an array of just that scalar becomes as a vector, under every policy and int64 option. |
| Vectors.BuildVectorTyped | inst/include/RcppSimdJson/deserialize/vector.hpp:26-45 | The typed loop produces, cell for cell, the vector of per-element conversions, for arrays of at most 16777215 elements. |
| Vectors.BuildVectorMixed | inst/include/RcppSimdJson/deserialize/vector.hpp:98-130 | The mixed loop produces that vector too, within the same limit. |
| Vectors.TypedIsLicensed | inst/include/RcppSimdJson/deserialize/simplify.hpp:33-37 | Vectorizable and homogeneous: every element is of the type the typed builder reads, or is a null that the doctor has reported. |
| Vectors.VectorizableIsScalar | inst/include/RcppSimdJson/deserialize/Type_Doctor.hpp:206-244 | A vectorizable array has scalars only, and nulls only if its common R type is null. |
| Vectors.DispatchTyped | inst/include/RcppSimdJson/deserialize/vector.hpp:48-95 | The typed dispatch, for licensed elements, equals the per-element vector of the type the int64 option selects, within that limit. |
| Vectors.DispatchMixed | inst/include/RcppSimdJson/deserialize/vector.hpp:133-171 | The mixed dispatch equals the same vector, the all-null case included, within that limit. |
| Fidelity.AtomicDenotes | inst/include/RcppSimdJson/deserialize/simplify.hpp:32-39 | Under every policy each element of a vectorizable array converts to a cell that stands for it up to rounding, and has exactly its value if and only if it needs no rounding. |
| Fidelity.AtomicMissing | inst/include/RcppSimdJson/deserialize/scalar.hpp:139-207 | In vectors and matrices, under every policy, an entry is NA if and only if its element is null, or is -2^63 where the int64 option and the other elements make it a 64-bit integer. |
| Fidelity.MissingAmong | inst/include/RcppSimdJson/deserialize/Type_Doctor.hpp:147-203 | A scalar among others reads as NA if and only if it is null, or of a type the policy does not keep, or an integer stored as, or cut to, the bit pattern of NA; by policy, option and the types seen. |
| Fidelity.SmallestIntegerIsMissing | inst/include/RcppSimdJson/common.hpp:29 | That exception occurs: [-9223372036854775808] reads as NA under the `integer64` option. |
| Matrices.Diagnose | inst/include/RcppSimdJson/deserialize/matrix.hpp:19-47 | The row-by-row diagnosis succeeds exactly for the arrays that are matrices, with the diagnosis of all elements, if no row has more than 16777215. |
| Matrices.PrefixVectorizes | inst/include/RcppSimdJson/deserialize/matrix.hpp:25-40 | On a matrix, no early row can make the diagnosis give up. |
| Policies.MatrixMeans | inst/include/RcppSimdJson/deserialize/matrix.hpp:19-47 | A matrix is: rows of one length whose elements together are vectorizable and, unless anything goes, a first row with a value that is not null. |
| Policies.MatrixNeedsFirstValue | inst/include/RcppSimdJson/deserialize/matrix.hpp:37-39 | Under `strict`, [[null],[1]] is not a matrix and [[1],[null]] is one. |
| Matrices.OffsetBounds | inst/include/RcppSimdJson/deserialize/matrix.hpp:70-77 | The running offset of row r and column c is c * rows + r. |
| Matrices.OffsetInRange | inst/include/RcppSimdJson/deserialize/matrix.hpp:70-77 | Every offset is within the matrix. |
| Matrices.OffsetInjective | inst/include/RcppSimdJson/deserialize/matrix.hpp:70-77 | Different rows and columns have different offsets. |
| Matrices.OffsetCovers | inst/include/RcppSimdJson/deserialize/matrix.hpp:70-77 | Every position of the matrix is the offset of some row and column. |
| Matrices.TransposedAt | inst/include/RcppSimdJson/deserialize/matrix.hpp:70-77 | Row r, column c of the matrix is the conversion of element c of row r. |
| Matrices.BuildMatrixTyped | inst/include/RcppSimdJson/deserialize/matrix.hpp:50-119 | The typed column-major fill produces the concatenated columns of per-element conversions, for at most 16777215 rows and columns. |
| Matrices.BuildMatrixMixed | inst/include/RcppSimdJson/deserialize/matrix.hpp:194-282 | So does the mixed fill, within the same limit. |
| Matrices.DispatchTyped | inst/include/RcppSimdJson/deserialize/matrix.hpp:122-192 | The typed dispatch by element type and R type equals the per-element matrix, within that limit. |
| Matrices.DispatchMixed | inst/include/RcppSimdJson/deserialize/matrix.hpp:285-325 | The mixed dispatch equals the same matrix, the all-null case included, within that limit. |
| DataFrames.SameKey | inst/include/RcppSimdJson/deserialize/dataframe.hpp:29-41 | The byte-by-byte comparison decides equality of keys. |
| DataFrames.ColumnSchema.Find | inst/include/RcppSimdJson/deserialize/dataframe.hpp:43-62 | Lookup gives the column of the key, or -1 exactly if there is none, for every guessed position, below and above the hashing threshold. |
| DataFrames.ColumnSchema.IndexAll | inst/include/RcppSimdJson/deserialize/dataframe.hpp:68-71 | Crossing the threshold indexes exactly the columns there are. |
| DataFrames.ColumnSchema.Add | inst/include/RcppSimdJson/deserialize/dataframe.hpp:64-76 | A new key becomes the last column; keys stay distinct and the hash index stays empty below 16 columns and exact from there on. |
| DataFrames.ColumnSchema.ScanField | inst/include/RcppSimdJson/deserialize/dataframe.hpp:100-107 | One field: its value goes to the doctor of its key and to no other; the flag stays up only for a field in the place of its column. |
| DataFrames.ColumnSchema.ScanRow | inst/include/RcppSimdJson/deserialize/dataframe.hpp:99-107 | A row leaves the flag up exactly if its keys begin the list of columns in order. |
| DataFrames.ColumnSchema.AddRow | inst/include/RcppSimdJson/deserialize/dataframe.hpp:95-112 | After each row the flag is exact for all rows so far. |
| DataFrames.RegularStep | inst/include/RcppSimdJson/deserialize/dataframe.hpp:105-111 | Rows are regular exactly if they were before, and the new row repeats the columns and is as long as the first row. |
| DataFrames.DiagnoseDataFrame | inst/include/RcppSimdJson/deserialize/dataframe.hpp:80-115 | No columns exactly if some element is not an object; else the distinct keys, each with the doctor of all its values, and `is_regular` exactly if every row has the columns' keys in order. |
| DataFrames.FieldsInOrder | inst/include/RcppSimdJson/deserialize/dataframe.hpp:90-107 | The fields are scanned in document order: after those of the rows before, in the order of the row. |
| DataFrames.ValuesUnderAre | inst/include/RcppSimdJson/deserialize/dataframe.hpp:90-107 | A column has seen exactly the values that some row has under its key. |
| DataFrames.ColumnKeysAre | inst/include/RcppSimdJson/deserialize/dataframe.hpp:100-104 | The columns are pairwise distinct and are the keys that occur. |
| DataFrames.ColumnKeysInOrder | inst/include/RcppSimdJson/deserialize/dataframe.hpp:100-104 | The columns are ordered by first appearance. |
| Simplifier.RegularIsFirst | inst/include/RcppSimdJson/deserialize/dataframe.hpp:190-191 | On the shortcut by position the column is in range, is that of the field's key, and has not been set before in the row. |
| Simplifier.Route | inst/include/RcppSimdJson/deserialize/dataframe.hpp:189-198 | The column found is that of the key on both paths, never -1, and a field is skipped exactly if its key came earlier in the row. |
| Simplifier.FirstWins | inst/include/RcppSimdJson/deserialize/dataframe.hpp:229-233 | The first field of a key decides a cell, whatever follows it. |
| Simplifier.FillField | inst/include/RcppSimdJson/deserialize/dataframe.hpp:188-222 | Storing one field takes the row from the cells of the fields before it to the cells of the fields up to it. |
| Simplifier.FillRow | inst/include/RcppSimdJson/deserialize/dataframe.hpp:187-224 | A filled row has, in every column, the first value of the column's key, or the NA it had; other rows are unchanged. |
| Simplifier.FillDataFrame | inst/include/RcppSimdJson/deserialize/dataframe.hpp:176-226 | The second pass fills every row so, whether the rows are regular or not. |
| Simplifier.AllocateColumns | inst/include/RcppSimdJson/deserialize/dataframe.hpp:246-296 | One buffer of NAs for each column, of the kind the doctor of its values selects, with an entry for each of at most 16777215 rows. |
| Simplifier.BuildDataFrame | inst/include/RcppSimdJson/deserialize/dataframe.hpp:229-308 | For records with true sizes (`Countable`) the two-pass data frame equals the one built with one key lookup for each row and column. |
| Fidelity.ListColumnMeans | inst/include/RcppSimdJson/deserialize/dataframe.hpp:251 | A column becomes a list exactly if an array or object occurs in it. |
| Shapes.ColumnType | inst/include/RcppSimdJson/deserialize/dataframe.hpp:251 | Under every policy a column without arrays and objects has the vector type of the heaviest value under its key, vectorizable or not; any other is a list. |
| Shapes.FrameHolds | inst/include/RcppSimdJson/deserialize/dataframe.hpp:188-296 | Row i of column j is the first value of the key in the record, converted to the type of the column, or simplified on its own in a list; or the NA of that type, in a list an integer NA. |
| Fidelity.NullColumnIsNull | inst/include/RcppSimdJson/deserialize/dataframe.hpp:216-217 | A column of the null kind has only nulls under its key, under every policy, so nothing is lost by writing nothing. |
| Fidelity.KeepsAllMeans | inst/include/RcppSimdJson/deserialize/Type_Doctor.hpp:147-203 | The condition on a set of R types under which a policy keeps all of them agrees with the condition for each type. |
| Fidelity.ColumnDenotes | inst/include/RcppSimdJson/deserialize/dataframe.hpp:251 | For every policy and int64 option: a column of scalars keeps all the values found under its key, up to rounding, if and only if the set of R types seen meets the condition `KeepsAll` for that policy and option; and keeps them exactly if and only if none needs rounding besides. |
| Fidelity.ColumnsKeepValues | inst/include/RcppSimdJson/deserialize/dataframe.hpp:251 | The condition holds for all columns under `anything_goes`, and under the other policies for columns that are vectorizable. |
| Fidelity.FrameCellDenotes | inst/include/RcppSimdJson/deserialize/dataframe.hpp:188-222 | Under every policy, in any column of scalars: the cell of a row that has the key stands for the first value there, up to rounding or exactly, if and only if the policy keeps that value's type among those seen, and for exactness it needs no rounding. |
| Fidelity.FrameCellMissing | inst/include/RcppSimdJson/deserialize/dataframe.hpp:249-296 | Under every policy, in any column of scalars: a cell is NA if and only if the key is absent or its first value reads as NA by `ReadsMissing`; in a column that keeps its values that is null, or -2^63 among 64-bit integers. |
| Fidelity.IntColumnNarrows | inst/include/RcppSimdJson/deserialize/Type_Doctor.hpp:168-191 | A 32-bit column narrows without loss exactly if no 64-bit integer was seen under its key; only `strict` can build one where some was. |
| Fidelity.StrictColumnCuts | inst/include/RcppSimdJson/deserialize/dataframe.hpp:246-308 | Under `strict`, and any int64 option but `always`, the data frame of rows with 1 and any integer beyond 32 bits under one key has the column of 1 and that integer's low 32 bits. |
| Fidelity.StrictColumnWraps | inst/include/RcppSimdJson/deserialize/dataframe.hpp:246-308 | Under the same options, the data frames of rows with 1 and 3000000000, and with 1 and 2147483648, under one key have the columns 1, -1294967296 and 1, NA. |
| Fidelity.NumbersColumnLosesText | inst/include/RcppSimdJson/deserialize/dataframe.hpp:246-308 | Under `ints_as_dbls`, the data frame of rows with any text and any double under one key has the column of NA and the double. |
| Simplifier.SimplifyElement | inst/include/RcppSimdJson/deserialize/simplify.hpp:157-195 | For every document with true sizes (`Countable`) and all options the call ends, with the value that shape and per-element conversion prescribe, or with the embedded-nul error exactly if a string in that value cannot be made. |
| Simplifier.DispatchSimplifyArray | inst/include/RcppSimdJson/deserialize/simplify.hpp:77-105 | The same for arrays, from the stage the option selects. |
| Simplifier.SimplifyDataFrame | inst/include/RcppSimdJson/deserialize/simplify.hpp:63-74 | The data frame stage, falling to the matrix stage for the same array. |
| Simplifier.SimplifyMatrix | inst/include/RcppSimdJson/deserialize/simplify.hpp:45-60 | The matrix stage, typed or mixed, falling to the vector stage. |
| Simplifier.SimplifyVector | inst/include/RcppSimdJson/deserialize/simplify.hpp:30-42 | The vector stage, typed or mixed, falling to the list stage. |
| Simplifier.SimplifyList | inst/include/RcppSimdJson/deserialize/simplify.hpp:17-27 | The list stage: every element on its own. |
| Simplifier.SimplifyObject | inst/include/RcppSimdJson/deserialize/simplify.hpp:108-130 | A named list with every member in order, repeated keys included. |
| Counts.FillFits | inst/include/RcppSimdJson/deserialize/vector.hpp:28-32 | Filling a buffer of the reported size, one entry for each child, stays inside it if and only if there are at most 16777215 children. |
| Counts.MatrixFits | inst/include/RcppSimdJson/deserialize/matrix.hpp:52-77 | So does filling a matrix of reported rows and columns, if and only if both keep to that limit. |
| Counts.SameCounts | inst/include/RcppSimdJson/deserialize/matrix.hpp:32-39 | Comparing reported sizes tells whether all rows have one length, except that rows which all reach the limit pass for equal. |
| Counts.LongArrayOverruns | inst/include/RcppSimdJson/deserialize/simplify.hpp:20-25 | The array of 16777216 ones needs, under all options, one entry more than its reported size. |
| Counts.CountsSuffice | inst/include/RcppSimdJson/common.hpp:20-23 | For every document and all options: the sizes read are true (`Countable`) if and only if no vector, matrix, list or data frame of the value is larger than a count can tell. |
| Shapes.ShapeOfArray | inst/include/RcppSimdJson/deserialize/simplify.hpp:30-105 | Which arrays become data frames, matrices, vectors and lists, by level, policy and elements alone; each of the size of the array, and a data frame with the distinct keys for names. |
| Shapes.VectorType | inst/include/RcppSimdJson/deserialize/simplify.hpp:30-42 | A vector has the type of the heaviest element of the array. |
| Shapes.MatrixType | inst/include/RcppSimdJson/deserialize/simplify.hpp:45-60 | A matrix has the type of the heaviest element of all rows. |
| Shapes.ListHolds | inst/include/RcppSimdJson/deserialize/simplify.hpp:17-27 | A list has every element of the array, in order, simplified on its own. |
| Shapes.ObjectHolds | inst/include/RcppSimdJson/deserialize/simplify.hpp:108-130 | A named list has every member of the object, in order, repeated keys included: its key for a name, and its value simplified on its own. |
| Shapes.CallersObjects | inst/include/RcppSimdJson/deserialize/simplify.hpp:77-195 | Empty arrays, empty objects and lone nulls become the objects the caller gave for each. |
| Shapes.ElementWellFormed | inst/include/RcppSimdJson/deserialize/simplify.hpp:17-195 | For every document and all options: every vector, matrix and column has cells of its own type only, lists hold well-formed values, matrices have rows times columns cells, and data frames have distinct names and columns of the same length. |
| Access.ReadBack | inst/include/RcppSimdJson/deserialize/simplify.hpp:17-195 | For all policies, int64 options and levels: reading the result along any path to a scalar gives the scalar, coerced to the common type of the vector, matrix or column it belongs to. |
| Access.ReadBackStands | inst/include/RcppSimdJson/deserialize/simplify.hpp:17-195 | Under `anything_goes`, and under any policy without data frames, what is read back stands for the scalar up to rounding, and has exactly its value if and only if it needs no rounding. |
| Access.MissingMeansNull | inst/include/RcppSimdJson/deserialize/simplify.hpp:17-195 | Under the same conditions a scalar reads as NA if and only if it is null in the company of others, or is -2^63 stored as a 64-bit integer, which option and company decide; a null on its own reads as the caller's object for it. |
| Access.NothingInvented | inst/include/RcppSimdJson/deserialize/simplify.hpp:17-195 | For all policies, options and levels, whatever can be read from the result is what the document has on that path: a scalar, coerced to the type of its company; an array or object, simplified as on its own. Otherwise it is the one element of a scalar on its own, or the NA of a field that a record lacks. |
| Access.KeptExactly | inst/include/RcppSimdJson/deserialize/simplify.hpp:17-195 | Under any policy a scalar with company is kept, up to rounding, if and only if it is null or the policy and the int64 option keep its R type among the types of its company; and exactly if and only if it needs no rounding besides. |
| Access.MissingExactly | inst/include/RcppSimdJson/deserialize/simplify.hpp:17-195 | Under any policy a scalar with company reads as NA if and only if `ReadsMissing` says so of it and the types of its company. |
| Nuls.NoNulNoError | inst/include/RcppSimdJson/common.hpp:175-180 | A document without nul bytes in strings and keys is simplified without error under all options. |
| Nuls.FailsExactly | inst/include/RcppSimdJson/deserialize/simplify.hpp:17-195 | For all options the call fails if and only if a string with a nul byte has to be made. In records only the first field of a key counts, and a text there only if the policy keeps texts among the values of its key, or one of these is an array or object. |
| Nuls.NulsAreFatal | inst/include/RcppSimdJson/deserialize/simplify.hpp:17-195 | Without data frames, under every policy, and with them under `anything_goes` if no object repeats a key, the call fails if and only if some string or key of the document has a nul byte. |
| Nuls.DroppedNulIsHarmless | inst/include/RcppSimdJson/deserialize/dataframe.hpp:199-222 | A nul byte in a text that a lossy column turns into NA does no harm, whatever double is in the other row. |
| Nuls.RepeatedNulIsHarmless | inst/include/RcppSimdJson/deserialize/dataframe.hpp:192-197 | Nor does one in a field that repeats an earlier key of its record. |
| CharsxpCaches.MakeCharsxp | inst/include/RcppSimdJson/common.hpp:175-180 | Makes a string of exactly the bytes given, and refuses an embedded nul. |
| CharsxpCaches.CharsxpCache.constructor | inst/include/RcppSimdJson/common.hpp:199-201 | A new cache is empty and valid. |
| CharsxpCaches.CharsxpCache.Hash | inst/include/RcppSimdJson/common.hpp:203-209 | The hash loop gives a slot within the table that depends on the bytes alone. |
| CharsxpCaches.CharsxpCache.Same | inst/include/RcppSimdJson/common.hpp:211-221 | The comparison decides whether the slot holds exactly these bytes, whatever an earlier entry left behind them. |
| CharsxpCaches.CharsxpCache.Get | inst/include/RcppSimdJson/common.hpp:224-242 | Returns the bytes asked for, as MakeCharsxp would, the cached object on a hit; fails exactly on an embedded nul; touches no other slot; and every cached string still matches its slot and is kept alive. |
| CharsxpCaches.CharsxpCache.Clear | inst/include/RcppSimdJson/common.hpp:245-252 | Forgets everything, leaving a valid cache. |
| CharsxpCaches.Replay | inst/include/RcppSimdJson/common.hpp:190-258 | Over any sequence of gets and clears every get comes out as without the cache. |
| InputBuffers.InputBuffer.ParseDocument | inst/include/RcppSimdJson/deserialize.hpp:464-474 | The parser sees the document followed by the padding zeros, within the allocation; the buffer grows only when it must. |
| InputBuffers.InputBuffer.ReleaseBuffer | inst/include/RcppSimdJson/deserialize.hpp:476-482 | Frees the buffer and returns exactly the bytes that were allocated. |
| InputBuffers.InputBuffer.End | inst/include/RcppSimdJson/deserialize.hpp:455-459 | After a call at most 64 MiB are retained, and a buffer within that is kept. |
| InputBuffers.PaddedIs | inst/include/RcppSimdJson/deserialize.hpp:471-472 | What the parser sees is the document and then 64 zeros. |
| InputBuffers.KeptUpToLimit | inst/include/RcppSimdJson/deserialize.hpp:455-459 | The end of a call keeps a buffer if and only if it holds at most 64 MiB. |
| InputBuffers.CapacityIsLargest | inst/include/RcppSimdJson/deserialize.hpp:426-428 | Over any run the capacity is the size of the largest document since the last release. |
| InputBuffers.BoundedBetweenCalls | inst/include/RcppSimdJson/deserialize.hpp:427-428 | Between calls at most 64 MiB and the padding stay allocated. |
| InputBuffers.Replay | inst/include/RcppSimdJson/deserialize.hpp:435-483 | Over any run every parse sees its own document and padding, and every release returns what was held. |

## Left out

- Parsing, JSON Pointer queries, minifying and UTF-8 validation: library code; the model starts from parsed elements.
- Option dispatch, loops over several documents or queries, and their error values: plumbing around the simplifier.
- BIGINT elements: the parser only makes them with an option that is never set.
- R memory: protection, allocation failure, class and row-name attributes. Of garbage collection only the relation
  between cached strings and the list that keeps them alive is modelled.
- R's global string table: `MakeCharsxp` makes a new object each time, so that equal strings are equal only in bytes.
- The shared cache is not threaded through the simplifier: its methods make every string by `Made`, and the cache is
  proved to give the outcome of `Made` over every run.
- Doubles are a sign and an exact real magnitude: finite values only, as in JSON, and also magnitudes that no double
  has. "%f" is taken to round the exact value to six places, ties to even.
- Type_Doctor: the flags of one doctor are kept as two sets, and the doctors of the columns by value in a sequence, as
  a std::vector holds them; the array of rows last written (`last_row`) is a sequence too.
- Elements are read from sequences; the order in which iteration meets them is the order of the document.
- What the code returns for documents that are not `Countable`: the model says where sizes stop being true, no more.
- Array lengths beyond R's limits, and strings of 2^31 bytes or more: not modelled.
- `is_castable_int64_vec` and the vector form of `resolve_int64`: not used by the simplifier.
