/**
 * The exceptions that leave the service and the controller, with the part of
 * the class hierarchy that decides which handler receives them.
 */
module Exceptions {
  import opened Wrappers

  /** The exception classes involved; `OtherExceptionClass` is any class not named here. */
  datatype ExceptionClass =
    | StorageFileNotFoundExceptionClass
    | DuplicateFileExceptionClass
    | InvalidFileExceptionClass
    | StorageExceptionClass
    | MethodArgumentNotValidExceptionClass
    | BindExceptionClass
    | ConstraintViolationExceptionClass
    | ValidationExceptionClass
    | RuntimeExceptionClass
    | OtherExceptionClass
    | ExceptionClass

  /** A class followed by its superclasses, nearest first, up to `Exception`. */
  function Ancestry(c: ExceptionClass): (r: seq<ExceptionClass>)
    ensures r != [] && r[0] == c && r[|r| - 1] == ExceptionClass
  {
    match c
    case StorageFileNotFoundExceptionClass =>
      [c, StorageExceptionClass, RuntimeExceptionClass, ExceptionClass]
    case DuplicateFileExceptionClass =>
      [c, StorageExceptionClass, RuntimeExceptionClass, ExceptionClass]
    case InvalidFileExceptionClass =>
      [c, StorageExceptionClass, RuntimeExceptionClass, ExceptionClass]
    case StorageExceptionClass => [c, RuntimeExceptionClass, ExceptionClass]
    case MethodArgumentNotValidExceptionClass => [c, BindExceptionClass, ExceptionClass]
    case BindExceptionClass => [c, ExceptionClass]
    case ConstraintViolationExceptionClass =>
      [c, ValidationExceptionClass, RuntimeExceptionClass, ExceptionClass]
    case ValidationExceptionClass => [c, RuntimeExceptionClass, ExceptionClass]
    case RuntimeExceptionClass => [c, ExceptionClass]
    case OtherExceptionClass => [c, ExceptionClass]
    case ExceptionClass => [c]
  }

  /** Which StorageException subclass a storage failure is thrown as. */
  datatype StorageKind = PlainStorage | DuplicateFile | InvalidFile | FileNotFound

  /** A bean-validation field error; `V` stands for any rejected Java value. */
  datatype FieldError<V> = FieldError(field: string, defaultMessage: Option<string>, rejectedValue: V)

  /** A constraint violation on a method parameter. */
  datatype Violation<V> = Violation(propertyPath: string, message: string, invalidValue: V)

  /** An exception as the exception handler receives it. */
  datatype JavaException<V> =
    | StorageEx(kind: StorageKind, message: string)
    | MethodArgumentNotValid(fieldErrors: seq<FieldError<V>>)
    | ConstraintViolation(violations: seq<Violation<V>>)
    | OtherEx(detail: Option<string>)

  /** The runtime class of an exception. */
  function ClassOf<V>(ex: JavaException<V>): ExceptionClass
  {
    match ex
    case StorageEx(PlainStorage, _) => StorageExceptionClass
    case StorageEx(DuplicateFile, _) => DuplicateFileExceptionClass
    case StorageEx(InvalidFile, _) => InvalidFileExceptionClass
    case StorageEx(FileNotFound, _) => StorageFileNotFoundExceptionClass
    case MethodArgumentNotValid(_) => MethodArgumentNotValidExceptionClass
    case ConstraintViolation(_) => ConstraintViolationExceptionClass
    case OtherEx(_) => OtherExceptionClass
  }

  /** `ex instanceof StorageException`. */
  predicate IsStorageException<V>(ex: JavaException<V>)
  {
    StorageExceptionClass in Ancestry(ClassOf(ex))
  }
}
