# Calculator service handlers, modelled in Dafny

This project models four of the five request handlers of the calculator gRPC server
(`calculator/calculator_server/server.go`; ComputeAverage is left out) and proves what each promises:

- **Sum** (unary): adds two int32 values; it always succeeds.
- **PrimeNumberDecomposition** (server streaming): trial division of the requested
  number. It sends each divisor that divides what is left of the number, then ends
  the stream with a nil error.
- **FindMaximum** (bidirectional streaming): keeps a running maximum that starts at 0.
  It sends back each received value that exceeds the maximum.
- **SquareRoot** (unary): refuses a negative number with status `InvalidArgument`
  and a message naming the number. It answers any other number.

Modelling choices:

- The protocol-buffer definitions are not part of this model. Every integer field of
  the requests and responses of the four modelled handlers is taken to be an `int32`. The two streaming handlers force this (`int32(2)`,
  `int32(0)`), and Sum and SquareRoot are assumed to match. `Int32.int32` is a
  newtype, so every arithmetic step in the decomposition loop is proved not to
  overflow. Sum wraps around explicitly, as Go's int32 addition does.
- An incoming stream is the finite sequence of values the client sends before it
  ends its stream. `Recv` returning `io.EOF` is the end of that sequence.
- An outgoing stream is the sequence of values passed to `Send`, in order. Each
  streaming method returns that sequence together with the handler's final status.
- A nil error is `GrpcStatus.Nil`, the status `OK` with an empty message. A unary
  handler's result is a `GrpcStatus.Outcome`: a response or a failure status.
- The decomposition is proved against `Factorization.Factorization`: repeatedly split
  off the smallest factor. Separate lemmas prove that this list multiplies back to the
  number, holds only primes, and is non-decreasing.
- The running maximum is proved against `RunningMax.Records`, which keeps exactly the
  values that are positive and larger than every earlier value. The loop keeps
  `maximum == RunningMax.MaxSoFar(received[..i])`.
- SquareRoot's message keeps the source's spelling ("nubmer"). `%v` of the number is
  modelled by `Decimal.IntToString`, which `Decimal.ParseInt` reads back exactly.

## Model

| member | source | states |
|---|---|---|
| `Int32.Wrap` | calculator/calculator_server/server.go:25 | the stored int32 equals the mathematical result exactly when that result is in range, and is congruent to it modulo 2^32 otherwise |
| `CalculatorServer.Sum` | calculator/calculator_server/server.go:21-26 | Sum always returns a response; its result equals value1 + value2 exactly when there is no int32 overflow, and agrees with it modulo 2^32 always |
| `CalculatorServer.PrimeNumberDecomposition` | calculator/calculator_server/server.go:29-43 | the values sent are the smallest-factor-first factorisation of the number; nothing is sent exactly when the number is at most 1; for a number of at least 1 their product is the number; each is prime; they are non-decreasing; the handler ends with a nil error; the loop terminates and `divisor++` never overflows |
| `CalculatorServer.DivideKeepsFactorization` | calculator/calculator_server/server.go:34-37 | sending `divisor` and dividing `number` by it keeps the values sent followed by the factors of what is left equal to the factorisation of the request, leaves a smaller quotient of at least 1, and the quotient has no factor below `divisor` |
| `CalculatorServer.DecompositionFacts` | calculator/calculator_server/server.go:30-42 | values sent that match the factorisation are empty exactly for a number of at most 1, multiply back to the number, are prime and are non-decreasing |
| `Factorization.SmallestFactor` | calculator/calculator_server/server.go:33-40 | the first divisor trial division finds for n >= 2 divides n, no smaller integer >= 2 divides n, and it is prime |
| `Factorization.SmallestFactorIs` | calculator/calculator_server/server.go:34 | a divisor with no smaller factor below it is the smallest factor |
| `Factorization.DivideStep` | calculator/calculator_server/server.go:34-37 | when `divisor` divides `number`, it is the next factor of the list, the quotient is smaller and at least 1, and the quotient has no factor below `divisor` |
| `Factorization.AdvanceStep` | calculator/calculator_server/server.go:38-40 | when `divisor` does not divide `number`, it stays below `number` and no factor lies below `divisor + 1` |
| `Factorization.FactorizationProduct` | calculator/calculator_server/server.go:33-37 | the factor list is empty exactly for n <= 1, and for n >= 1 its product is n |
| `Factorization.FactorizationPrime` | calculator/calculator_server/server.go:33-40 | every listed factor is prime |
| `Factorization.FactorizationSorted` | calculator/calculator_server/server.go:31-40 | the factors are non-decreasing, and none is below the smallest factor of n |
| `Factorization.FactorsDivide` | calculator/calculator_server/server.go:34-37 | every listed factor is at least 2 and divides n |
| `Factorization.FactorizationFacts` | calculator/calculator_server/server.go:30-42 | collects the four properties of the factor list: empty exactly for n <= 1, product n, all prime, non-decreasing |
| `Factorization.ClientExample` | calculator/calculator_client/client.go:48-50 | the request 1200 decomposes into 2, 2, 2, 2, 3, 5, 5 |
| `CalculatorServer.FindMaximum` | calculator/calculator_server/server.go:67-90 | the values sent are exactly the received values that are positive and exceed every earlier value, in order; they are positive and strictly increasing; the handler ends with a nil error at end of stream |
| `RunningMax.MaxSoFar` | calculator/calculator_server/server.go:69-80 | the running maximum is at least 0, at least every value received so far, and is either 0 or one of those values |
| `RunningMax.RecordIffExceedsMax` | calculator/calculator_server/server.go:79-83 | a value is sent exactly when it is strictly greater than the running maximum of the values before it |
| `RunningMax.RecordsFromStream` | calculator/calculator_server/server.go:78-83 | every value sent is a value that was received |
| `RunningMax.RecordsIncreasing` | calculator/calculator_server/server.go:79-83 | the values sent are positive and strictly increasing |
| `RunningMax.LastRecordIsMax` | calculator/calculator_server/server.go:69-83 | nothing is sent exactly when the running maximum stays 0 (no positive input); otherwise the last value sent is the running maximum |
| `RunningMax.RecordsOfPrefix` | calculator/calculator_server/server.go:70-88 | the responses to a prefix of the request stream are a prefix of the responses to the whole stream: nothing sent is ever retracted |
| `RunningMax.ClientExample` | calculator/calculator_client/client.go:109-122 | requests 1, 4, 3, 5 get responses 1, 4, 5 |
| `CalculatorServer.SquareRoot` | calculator/calculator_server/server.go:92-101 | a failure happens exactly for a negative number; it has code InvalidArgument and its message is exactly the fixed prefix followed by the `%v` text of the number, which reads back as the number; otherwise the response is for the requested number |
| `CalculatorServer.ClientNegativeExample` | calculator/calculator_client/client.go:158-160 | the request -9 fails with InvalidArgument and the message "Received a negative nubmer: -9" |
| `Decimal.NatToString` | calculator/calculator_server/server.go:97 | the printed digits are non-empty decimal digits, with a leading 0 only for the number 0 |
| `Decimal.IntToString` | calculator/calculator_server/server.go:97 | the printed text starts with a minus sign exactly for a negative number; the rest is a non-empty run of decimal digits with a leading 0 only for the number 0 |
| `Decimal.ParseNatToString` | calculator/calculator_server/server.go:97 | the digits of a natural number read back as that number |
| `Decimal.IntToStringRoundTrip` | calculator/calculator_server/server.go:97 | the `%v` text of any integer reads back as that integer |

## Left out

- ComputeAverage (`server.go:45-65`) is not modelled. It sums and divides in float32, and
  an empty stream gives 0/0 (NaN). Floating point is outside this model.
- The value of SquareRoot's response, `math.Sqrt(float64(number))`, is float64.
  `SquareRootResponse` carries only the number it answers.
- `Send` is modelled as always succeeding. PrimeNumberDecomposition ignores `Send`'s
  result. FindMaximum, when a send fails, returns the variable `err` from the last
  `Recv`, which is nil at that point, instead of `sendErr`. So a failed send ends the
  call with a nil error. Neither behaviour is modelled.
- A receive error other than end-of-stream calls `log.Fatalf` and exits the process
  (`server.go:59`, `server.go:76`). The model's input streams always end cleanly.
- The `fmt.Printf`/`fmt.Println` logging in every handler is output only and is left out.
- The contexts passed to Sum and SquareRoot (deadlines, cancellation) are never read
  by the handlers and are left out.
- `main` (socket listening, server registration, reflection) and the client programs
  are I/O set-up with no logic of their own.
- The goroutine pair and channel that drive the bidirectional stream on the client are
  concurrency. The model sees only the order of each direction's messages.
